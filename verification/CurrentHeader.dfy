/** The header of the shipped schema, protocol/schema/espnow-v1.3.yaml, is one that the frame theorems
 *  speak of. */
module CurrentHeader {
  import opened Prelude
  import opened Layout
  import opened Frame

  const LAYOUT: seq<Field> := [
    Field("magic", Some("magic_le"), Scalar(2, false), 0, false),
    Field("major", None, Scalar(1, false), 2, false),
    Field("minor", None, Scalar(1, false), 3, false),
    Field("header_len", None, Scalar(1, false), 4, false),
    Field("message_type", None, Scalar(1, false), 5, false),
    Field("flags", None, Scalar(1, false), 6, false),
    Field("priority", None, Scalar(1, false), 7, false),
    Field("session_id", Some("session_id_le"), Scalar(4, false), 8, false),
    Field("sequence", Some("sequence_le"), Scalar(4, false), 12, false),
    Field("sender_time_ms", Some("sender_time_ms_le"), Scalar(4, false), 16, false),
    Field("correlation_id", Some("correlation_id_le"), Scalar(4, false), 20, false),
    Field("payload_len", Some("payload_len_le"), Scalar(2, false), 24, false),
    Field("reserved", Some("reserved_le"), Scalar(2, false), 26, true),
    Field("crc32", Some("crc32_le"), Scalar(4, false), 28, false)]

  /** Where the fields start, and how wide they are. */
  lemma FrontPlaces()
    ensures |LAYOUT| == 14
    ensures LAYOUT[0].kind == Scalar(2, false) && LAYOUT[0].offset == 0
    ensures LAYOUT[1].kind == Scalar(1, false) && LAYOUT[1].offset == 2
    ensures LAYOUT[2].kind == Scalar(1, false) && LAYOUT[2].offset == 3
    ensures LAYOUT[3].kind == Scalar(1, false) && LAYOUT[3].offset == 4
    ensures LAYOUT[4].kind == Scalar(1, false) && LAYOUT[4].offset == 5
    ensures LAYOUT[5].kind == Scalar(1, false) && LAYOUT[5].offset == 6
    ensures LAYOUT[6].kind == Scalar(1, false) && LAYOUT[6].offset == 7
  {
  }

  lemma BackPlaces()
    ensures |LAYOUT| == 14
    ensures LAYOUT[7].kind == Scalar(4, false) && LAYOUT[7].offset == 8
    ensures LAYOUT[8].kind == Scalar(4, false) && LAYOUT[8].offset == 12
    ensures LAYOUT[9].kind == Scalar(4, false) && LAYOUT[9].offset == 16
    ensures LAYOUT[10].kind == Scalar(4, false) && LAYOUT[10].offset == 20
    ensures LAYOUT[11].kind == Scalar(2, false) && LAYOUT[11].offset == 24
    ensures LAYOUT[12].kind == Scalar(2, false) && LAYOUT[12].offset == 26
    ensures LAYOUT[13].kind == Scalar(4, false) && LAYOUT[13].offset == 28
  {
  }

  lemma ReservedField()
    ensures |LAYOUT| == 14
    ensures forall i :: 0 <= i < 14 ==> LAYOUT[i].kind.Scalar? && (LAYOUT[i].reserved <==> LAYOUT[i].name == "reserved")
  {
  }

  lemma BackPlaced()
    ensures |LAYOUT| == 14 && Contiguous(LAYOUT[7..], 8) && End(LAYOUT[7..], 8) == HEADER_SIZE
  {
    BackPlaces();
    hide LAYOUT;
    var f := LAYOUT;
    Beyond(f);
    hide Contiguous, End;
    ContiguousTail(f, 13, 28);
    ContiguousTail(f, 12, 26);
    ContiguousTail(f, 11, 24);
    ContiguousTail(f, 10, 20);
    ContiguousTail(f, 9, 16);
    ContiguousTail(f, 8, 12);
    ContiguousTail(f, 7, 8);
  }

  lemma Placed()
    ensures Contiguous(LAYOUT, 0) && End(LAYOUT, 0) == HEADER_SIZE
  {
    FrontPlaces();
    BackPlaced();
    hide LAYOUT;
    var f := LAYOUT;
    Beyond(f);
    hide Contiguous, End;
    ContiguousTail(f, 6, 7);
    ContiguousTail(f, 5, 6);
    ContiguousTail(f, 4, 5);
    ContiguousTail(f, 3, 4);
    ContiguousTail(f, 2, 3);
    ContiguousTail(f, 1, 2);
    ContiguousTail(f, 0, 0);
  }

  lemma Beyond(f: seq<Field>)
    requires |f| == 14
    ensures f[0..] == f && Contiguous(f[14..], HEADER_SIZE) && End(f[14..], HEADER_SIZE) == HEADER_SIZE
  {
  }

  /** Enough of a name to tell it from the others: its length, and its first and third character. */
  datatype Mark = Mark(length: nat, first: char, third: char)

  function MarkOf(s: string): Mark {
    if |s| < 3 then Mark(0, ' ', ' ') else Mark(|s|, s[0], s[2])
  }

  const NAME_MARKS: seq<Mark> := [
      Mark(5, 'm', 'g'), Mark(5, 'm', 'j'), Mark(5, 'm', 'n'), Mark(10, 'h', 'a'), Mark(12, 'm', 's'), Mark(5, 'f', 'a'), Mark(8, 'p', 'i'),
      Mark(10, 's', 's'), Mark(8, 's', 'q'), Mark(14, 's', 'n'), Mark(14, 'c', 'r'), Mark(11, 'p', 'y'), Mark(8, 'r', 's'), Mark(5, 'c', 'c')]

  const C_NAME_MARKS: seq<Mark> := [
      Mark(8, 'm', 'g'), Mark(5, 'm', 'j'), Mark(5, 'm', 'n'), Mark(10, 'h', 'a'), Mark(12, 'm', 's'), Mark(5, 'f', 'a'), Mark(8, 'p', 'i'),
      Mark(13, 's', 's'), Mark(11, 's', 'q'), Mark(17, 's', 'n'), Mark(17, 'c', 'r'), Mark(14, 'p', 'y'), Mark(11, 'r', 's'), Mark(8, 'c', 'c')]

  lemma MarksDiffer(i: nat, j: nat)
    requires i < j < 14
    ensures NAME_MARKS[i] != NAME_MARKS[j] && C_NAME_MARKS[i] != C_NAME_MARKS[j]
  {
  }

  lemma FrontMarks()
    ensures |LAYOUT| == 14
    ensures forall k :: 0 <= k < 7 ==> MarkOf(LAYOUT[k].name) == NAME_MARKS[k]
    ensures forall k :: 0 <= k < 7 ==> MarkOf(CName(LAYOUT[k])) == C_NAME_MARKS[k]
  {
  }

  lemma BackMarks()
    ensures |LAYOUT| == 14
    ensures forall k :: 7 <= k < 14 ==> MarkOf(LAYOUT[k].name) == NAME_MARKS[k]
    ensures forall k :: 7 <= k < 14 ==> MarkOf(CName(LAYOUT[k])) == C_NAME_MARKS[k]
  {
  }

  lemma Names()
    ensures DistinctNames(LAYOUT) && DistinctCNames(LAYOUT)
  {
    FrontMarks();
    BackMarks();
    hide LAYOUT, CName, MarkOf, NAME_MARKS, C_NAME_MARKS;
    forall i, j | 0 <= i < j < 14 ensures LAYOUT[i].name != LAYOUT[j].name && CName(LAYOUT[i]) != CName(LAYOUT[j]) {
      MarksDiffer(i, j);
    }
  }

  lemma NamesKnown()
    ensures |LAYOUT| == 14 && forall i :: 0 <= i < 14 ==> LAYOUT[i].name in HEADER_NAMES
  {
  }

  lemma NamesCovered(n: string)
    requires n in HEADER_NAMES
    ensures n in WireNames(LAYOUT)
  {
    var f := LAYOUT;
    assert n == f[0].name || n == f[1].name || n == f[2].name || n == f[3].name || n == f[4].name || n == f[5].name
           || n == f[6].name || n == f[7].name || n == f[8].name || n == f[9].name || n == f[10].name
           || n == f[11].name || n == f[12].name || n == f[13].name;
  }

  lemma NameSet()
    ensures WireNames(LAYOUT) == HEADER_NAMES
  {
    NamesKnown();
    hide LAYOUT, HEADER_NAMES;
    forall n ensures n in WireNames(LAYOUT) <==> n in HEADER_NAMES {
      if n in HEADER_NAMES {
        NamesCovered(n);
      }
    }
  }

  lemma FrontSpelled(k: nat)
    requires k < 7
    ensures WellNamed(LAYOUT[k])
  {
    hide IsIdentifier, NamedReserved;
    if k == 0 {
      Identifier("magic");
      Identifier("magic_le");
    } else if k == 1 {
      Identifier("major");
    } else if k == 2 {
      Identifier("minor");
    } else if k == 3 {
      Identifier("header_len");
    } else if k == 4 {
      Identifier("message_type");
    } else if k == 5 {
      Identifier("flags");
    } else if k == 6 {
      Identifier("priority");
    }
  }

  lemma MiddleSpelled(k: nat)
    requires 7 <= k < 10
    ensures WellNamed(LAYOUT[k])
  {
    hide IsIdentifier, NamedReserved;
    if k == 7 {
      Identifier("session_id");
      Identifier("session_id_le");
    } else if k == 8 {
      Identifier("sequence");
      Identifier("sequence_le");
    } else if k == 9 {
      Identifier("sender_time_ms");
      Identifier("sender_time_ms_le");
    }
  }

  lemma BackSpelled(k: nat)
    requires 10 <= k < 14
    ensures WellNamed(LAYOUT[k])
  {
    hide IsIdentifier, NamedReserved;
    if k == 10 {
      Identifier("correlation_id");
      Identifier("correlation_id_le");
    } else if k == 11 {
      Identifier("payload_len");
      Identifier("payload_len_le");
    } else if k == 12 {
      Identifier("reserved");
      Identifier("reserved_le");
      ReservedName();
    } else if k == 13 {
      Identifier("crc32");
      Identifier("crc32_le");
    }
  }

  lemma Identifier(s: string)
    requires s != [] && Letter(s[0]) && forall i :: 0 <= i < |s| ==> Letter(s[i]) || '0' <= s[i] <= '9'
    ensures IsIdentifier(s)
  {
  }

  lemma ReservedName()
    ensures NamedReserved("reserved")
  {
  }

  lemma Spelled()
    ensures NamesClean(LAYOUT)
  {
    Names();
    ReservedField();
    hide WellNamed, DistinctNames, DistinctCNames, LAYOUT;
    forall k | 0 <= k < 14 ensures WellNamed(LAYOUT[k]) {
      if k < 7 {
        FrontSpelled(k);
      } else if k < 10 {
        MiddleSpelled(k);
      } else {
        BackSpelled(k);
      }
    }
  }

  lemma HeaderFold(header: seq<Field>, last: nat)
    requires NamesClean(header) && Contiguous(header, 0) && End(header, 0) == HEADER_SIZE
    requires WireNames(header) == HEADER_NAMES
    requires forall i :: 0 <= i < |header| ==> header[i].kind.Scalar? && (header[i].reserved <==> header[i].name == "reserved")
    requires last < |header| && header[last].name == "crc32" && header[last].kind == Scalar(4, false)
             && header[last].offset == 28
    ensures HeaderOk(header)
  {
    hide NamesClean, WireNames, Contiguous, End, HEADER_NAMES;
  }

  lemma ChecksumName()
    ensures |LAYOUT| == 14 && LAYOUT[13].name == "crc32"
  {
  }

  /** The frame theorems apply to the header of the shipped schema. */
  lemma CurrentHeaderOk()
    ensures HeaderOk(LAYOUT)
  {
    hide *;
    BackPlaces();
    ReservedField();
    Placed();
    Spelled();
    NameSet();
    ChecksumName();
    HeaderFold(LAYOUT, 13);
  }
}
