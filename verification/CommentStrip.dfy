/** The comment stripper of the source boundary check, after `_strip_c_comments` in
 *  tools/check_stm32_core.py: a scan in five states, against a reading of the text as comments, literals
 *  and plain characters. */
module CommentStrip {
  datatype State = Code | LineComment | BlockComment | Literal(quote: char)

  predicate IsNewline(c: char) {
    c == '\r' || c == '\n'
  }

  predicate IsQuote(c: char) {
    c == '"' || c == '\''
  }

  predicate Opens(text: string, mark: char) {
    |text| >= 2 && text[0] == '/' && text[1] == mark
  }

  predicate Closes(text: string) {
    |text| >= 2 && text[0] == '*' && text[1] == '/'
  }

  predicate Escapes(text: string) {
    |text| >= 2 && text[0] == '\\'
  }

  // ---------------------------------------------------------------- the scan

  function Blank(c: char): char {
    if IsNewline(c) then c else ' '
  }

  /** What one step emits, how far it moves, and the state it leaves. */
  function Step(text: string, state: State): (r: (string, nat, State))
    requires text != []
    ensures 1 <= |r.0| <= r.1 <= |text|
  {
    var c := text[0];
    match state
    case Code =>
      if Opens(text, '/') then (" ", 2, LineComment)
      else if Opens(text, '*') then (" ", 2, BlockComment)
      else ([c], 1, if IsQuote(c) then Literal(c) else Code)
    case LineComment => ([Blank(c)], 1, if IsNewline(c) then Code else LineComment)
    case BlockComment => if Closes(text) then (" ", 2, Code) else ([Blank(c)], 1, BlockComment)
    case Literal(quote) =>
      if Escapes(text) then (text[..2], 2, state)
      else ([c], 1, if c == quote then Code else state)
  }

  function Scan(text: string, state: State): string
    decreases |text|
  {
    if text == [] then []
    else
      var (out, n, next) := Step(text, state);
      out + Scan(text[n..], next)
  }

  function Strip(text: string): string {
    Scan(text, Code)
  }

  method StripComments(text: string) returns (result: string)
    ensures result == Strip(text)
  {
    result := [];
    var index := 0;
    var state := Code;
    assert text[0..] == text && [] + Scan(text, Code) == Scan(text, Code);
    while index < |text|
      invariant index <= |text|
      invariant Scan(text, Code) == result + Scan(text[index..], state)
    {
      hide Scan, Opens, Closes, Escapes, IsQuote, IsNewline;
      var character := text[index];
      ScanStep(text, index, state, result);
      match state {
        case Code =>
          if index + 1 < |text| && character == '/' && text[index + 1] == '/' {
            result, index, state := result + " ", index + 2, LineComment;
          } else if index + 1 < |text| && character == '/' && text[index + 1] == '*' {
            result, index, state := result + " ", index + 2, BlockComment;
          } else {
            result := result + [character];
            if IsQuote(character) {
              state := Literal(character);
            }
            index := index + 1;
          }
        case LineComment =>
          if IsNewline(character) {
            result, state := result + [character], Code;
          } else {
            result := result + " ";
          }
          index := index + 1;
        case BlockComment =>
          if index + 1 < |text| && character == '*' && text[index + 1] == '/' {
            result, index, state := result + " ", index + 2, Code;
          } else if IsNewline(character) {
            result, index := result + [character], index + 1;
          } else {
            result, index := result + " ", index + 1;
          }
        case Literal(quote) =>
          if character == '\\' && index + 1 < |text| {
            result := result + [character] + [text[index + 1]];
            index := index + 2;
          } else {
            if character == quote {
              state := Code;
            }
            result := result + [character];
            index := index + 1;
          }
      }
    }
    assert text[|text|..] == [] && result + [] == result;
  }

  lemma ScanStep(text: string, index: nat, state: State, result: string)
    requires index < |text|
    ensures var (out, n, next) := Step(text[index..], state);
            && text[index..] != [] && text[index..][0] == text[index]
            && text[index..][n..] == text[index + n..]
            && result + Scan(text[index..], state) == result + out + Scan(text[index + n..], next)
    ensures Opens(text[index..], '/') <==> index + 1 < |text| && text[index] == '/' && text[index + 1] == '/'
    ensures Opens(text[index..], '*') <==> index + 1 < |text| && text[index] == '/' && text[index + 1] == '*'
    ensures Closes(text[index..]) <==> index + 1 < |text| && text[index] == '*' && text[index + 1] == '/'
    ensures Escapes(text[index..]) <==> index + 1 < |text| && text[index] == '\\'
    ensures Escapes(text[index..]) ==> result + text[index..][..2] == result + [text[index]] + [text[index + 1]]
  {
    hide Step;
    var (out, n, next) := Step(text[index..], state);
    assert text[index..][n..] == text[index + n..];
    assert result + (out + Scan(text[index + n..], next)) == result + out + Scan(text[index + n..], next);
  }

  // ---------------------------------------------------------------- lines and length

  function Newlines(s: string): string {
    if s == [] then [] else (if IsNewline(s[0]) then [s[0]] else []) + Newlines(s[1..])
  }

  lemma NewlinesStep(s: string)
    ensures s == [] ==> Newlines(s) == []
    ensures s != [] ==> Newlines(s) == (if IsNewline(s[0]) then [s[0]] else []) + Newlines(s[1..])
  {
  }

  lemma {:induction false} NewlinesSplit(a: string, b: string)
    ensures Newlines(a + b) == Newlines(a) + Newlines(b)
  {
    hide Newlines;
    if a == [] {
      assert a + b == b;
      NewlinesStep(a);
    } else {
      assert (a + b)[0] == a[0] && (a + b)[1..] == a[1..] + b;
      NewlinesSplit(a[1..], b);
      NewlinesStep(a);
      NewlinesStep(a + b);
    }
  }

  lemma StepNewlines(text: string, state: State)
    requires text != []
    ensures var (out, n, _) := Step(text, state); Newlines(out) == Newlines(text[..n])
  {
    var (out, n, _) := Step(text, state);
    assert out[1..] == [] || (|out| == 2 && out[1..][1..] == []);
    if n == 1 {
      assert text[..1][0] == text[0] && text[..1][1..] == [];
    } else {
      assert text[..2][0] == text[0] && text[..2][1..] == [text[1]] && [text[1]][1..] == [];
    }
  }

  /** Stripping keeps the exact sequence of line ends and never lengthens the text. */
  lemma {:induction false} ScanKeepsLines(text: string, state: State)
    ensures Newlines(Scan(text, state)) == Newlines(text)
    ensures |Scan(text, state)| <= |text|
    decreases |text|
  {
    if text != [] {
      var (out, n, next) := Step(text, state);
      StepNewlines(text, state);
      hide Step, Newlines;
      ScanKeepsLines(text[n..], next);
      NewlinesSplit(out, Scan(text[n..], next));
      NewlinesSplit(text[..n], text[n..]);
      assert text == text[..n] + text[n..];
    }
  }

  lemma StripKeepsLines(text: string)
    ensures Newlines(Strip(text)) == Newlines(text)
    ensures |Strip(text)| <= |text|
  {
    ScanKeepsLines(text, Code);
  }

  // ---------------------------------------------------------------- idempotence

  /** The state in which a second scan meets what the first emitted in `state`. */
  function Rescan(state: State): State {
    if state.Literal? then state else Code
  }

  lemma FirstEmitted(text: string)
    requires text != []
    ensures Scan(text, Code) != []
    ensures Scan(text, Code)[0] == text[0] || Scan(text, Code)[0] == ' '
  {
  }

  /** A second scan copies every step of the first and never enters a comment. */
  lemma StepAgain(text: string, state: State)
    requires text != []
    ensures var (out, n, next) := Step(text, state);
            var rest := Scan(text[n..], next);
            Step(out + rest, Rescan(state)) == (out, |out|, Rescan(next)) && (out + rest)[|out|..] == rest
  {
    var (out, n, next) := Step(text, state);
    var rest := Scan(text[n..], next);
    if state.Code? && n == 1 && |text| > 1 && next.Code? {
      FirstEmitted(text[1..]);
    }
    hide Scan;
    assert (out + rest)[0] == out[0];
    assert |out| == 2 ==> (out + rest)[1] == out[1] && (out + rest)[..2] == out;
    assert |out| == 1 && rest != [] ==> (out + rest)[1] == rest[0];
  }

  lemma {:induction false} ScanAgain(text: string, state: State)
    ensures Scan(Scan(text, state), Rescan(state)) == Scan(text, state)
    decreases |text|
  {
    if text != [] {
      var (out, n, next) := Step(text, state);
      ScanAgain(text[n..], next);
      StepAgain(text, state);
      hide Step, Rescan;
    }
  }

  /** Stripping twice is stripping once. */
  lemma StripIdempotent(text: string)
    ensures Strip(Strip(text)) == Strip(text)
  {
    ScanAgain(text, Code);
  }

  // ---------------------------------------------------------------- comments and literals

  /** A text read as C does: plain characters, string and character literals, and comments. */
  datatype Piece = Plain(c: char) | Quoted(text: string) | Line(text: string) | Block(text: string)

  /** The part before the first line end. */
  function LineLength(text: string): (n: nat)
    ensures n <= |text|
    ensures forall i :: 0 <= i < n ==> !IsNewline(text[i])
    ensures n < |text| ==> IsNewline(text[n])
  {
    if text == [] || IsNewline(text[0]) then 0 else 1 + LineLength(text[1..])
  }

  /** The part up to and with the first closing mark, or all of it. */
  function BlockLength(text: string): (n: nat)
    ensures n <= |text|
  {
    if text == [] then 0 else if Closes(text) then 2 else 1 + BlockLength(text[1..])
  }

  /** The part up to and with the first quote that is not escaped, or all of it. */
  function LiteralLength(text: string, quote: char): (n: nat)
    ensures n <= |text|
  {
    if text == [] then 0
    else if Escapes(text) then 2 + LiteralLength(text[2..], quote)
    else if text[0] == quote then 1
    else 1 + LiteralLength(text[1..], quote)
  }

  function FirstPiece(text: string): Piece
    requires text != []
  {
    if Opens(text, '/') then Line(text[..2 + LineLength(text[2..])])
    else if Opens(text, '*') then Block(text[..2 + BlockLength(text[2..])])
    else if IsQuote(text[0]) then Quoted(text[..1 + LiteralLength(text[1..], text[0])])
    else Plain(text[0])
  }

  function Source(p: Piece): (s: string)
  {
    match p
    case Plain(c) => [c]
    case Quoted(text) => text
    case Line(text) => text
    case Block(text) => text
  }

  lemma FirstSource(text: string)
    requires text != []
    ensures Source(FirstPiece(text)) <= text && Source(FirstPiece(text)) != []
  {
  }

  function Pieces(text: string): seq<Piece>
    decreases |text|
  {
    if text == [] then []
    else
      FirstSource(text);
      [FirstPiece(text)] + Pieces(text[|Source(FirstPiece(text))|..])
  }

  function Blanks(s: string): (b: string)
    ensures |b| == |s| && forall i :: 0 <= i < |s| ==> b[i] == Blank(s[i])
  {
    seq(|s|, i requires 0 <= i < |s| => Blank(s[i]))
  }

  /** The inside of a block comment: blanks and line ends, with one blank for the closing mark. */
  function Inside(text: string): string {
    if text == [] then []
    else if |text| == 2 && Closes(text) then " "
    else [Blank(text[0])] + Inside(text[1..])
  }

  /** What is left of a piece: all of a literal, and only blanks and line ends of a comment. */
  function Stripped(p: Piece): string {
    match p
    case Plain(c) => [c]
    case Quoted(text) => text
    case Line(text) => if |text| < 2 then [] else " " + Blanks(text[2..])
    case Block(text) => if |text| < 2 then [] else " " + Inside(text[2..])
  }

  function Whole(ps: seq<Piece>): string {
    if ps == [] then [] else Source(ps[0]) + Whole(ps[1..])
  }

  function Left(ps: seq<Piece>): string {
    if ps == [] then [] else Stripped(ps[0]) + Left(ps[1..])
  }

  lemma {:induction false} PiecesWhole(text: string)
    ensures Whole(Pieces(text)) == text
    decreases |text|
  {
    if text != [] {
      PiecesStep(text);
      PiecesWhole(text[|Source(FirstPiece(text))|..]);
      hide *;
    }
  }

  lemma PiecesStep(text: string)
    requires text != []
    ensures var source, rest := Source(FirstPiece(text)), text[|Source(FirstPiece(text))|..];
            && |rest| < |text|
            && text == source + rest
            && Whole(Pieces(text)) == source + Whole(Pieces(rest))
  {
    FirstSource(text);
    hide FirstPiece, Source;
  }

  /** Inside a line comment the scan blanks everything up to the line end. */
  lemma {:induction false} ScanLine(text: string)
    ensures var n := LineLength(text); Scan(text, LineComment) == Blanks(text[..n]) + Scan(text[n..], Code)
  {
    var n := LineLength(text);
    LineStep(text, n);
    if text != [] && !IsNewline(text[0]) {
      ScanLine(text[1..]);
      hide *;
      Regroup([Blank(text[0])], Blanks(text[1..][..n - 1]), Scan(text[n..], Code));
    }
  }

  lemma LineStep(text: string, n: nat)
    requires n == LineLength(text)
    ensures text == [] || IsNewline(text[0]) ==>
              n == 0 && Scan(text, LineComment) == Blanks(text[..0]) + Scan(text[0..], Code)
    ensures text != [] && !IsNewline(text[0]) ==>
              && n == 1 + LineLength(text[1..])
              && Blanks(text[..n]) == [Blank(text[0])] + Blanks(text[1..][..n - 1])
              && text[1..][n - 1..] == text[n..]
              && Scan(text, LineComment) == [Blank(text[0])] + Scan(text[1..], LineComment)
  {
    assert text[0..] == text && Blanks(text[..0]) == [];
  }

  lemma {:induction false} ScanBlock(text: string)
    ensures var n := BlockLength(text); Scan(text, BlockComment) == Inside(text[..n]) + Scan(text[n..], Code)
  {
    if text == [] {
    } else {
      var n := BlockLength(text);
      BlockStep(text, n);
      if !Closes(text) {
        ScanBlock(text[1..]);
        hide *;
        assert text[1..][n - 1..] == text[n..];
        Regroup([Blank(text[0])], Inside(text[1..][..n - 1]), Scan(text[n..], Code));
      }
    }
  }

  lemma BlockStep(text: string, n: nat)
    requires text != [] && n == BlockLength(text)
    ensures Closes(text) ==> n == 2 && Inside(text[..2]) == " " && Scan(text, BlockComment) == " " + Scan(text[2..], Code)
    ensures !Closes(text) ==>
              && n == 1 + BlockLength(text[1..])
              && Inside(text[..n]) == [Blank(text[0])] + Inside(text[1..][..n - 1])
              && Scan(text, BlockComment) == [Blank(text[0])] + Scan(text[1..], BlockComment)
  {
    hide IsNewline, Blank;
    if !Closes(text) {
      assert text[..n][1..] == text[1..][..n - 1];
      assert n == 2 ==> text[..n][0] == text[0] && text[..n][1] == text[1];
    }
  }

  /** Inside a literal the scan copies everything up to and with the closing quote. */
  lemma {:induction false} ScanLiteral(text: string, quote: char)
    ensures var n := LiteralLength(text, quote); Scan(text, Literal(quote)) == text[..n] + Scan(text[n..], Code)
    decreases |text|
  {
    if text != [] {
      var n := LiteralLength(text, quote);
      var m := LiteralStep(text, quote);
      LiteralCuts(text, m, n);
      if Escapes(text) || text[0] != quote {
        ScanLiteral(text[m..], quote);
        hide *;
        Regroup(text[..m], text[m..][..n - m], Scan(text[n..], Code));
      }
    }
  }

  lemma LiteralStep(text: string, quote: char) returns (m: nat)
    requires text != []
    ensures 1 <= m <= LiteralLength(text, quote) <= |text|
    ensures if Escapes(text) || text[0] != quote then
              && LiteralLength(text, quote) == m + LiteralLength(text[m..], quote)
              && Scan(text, Literal(quote)) == text[..m] + Scan(text[m..], Literal(quote))
            else
              m == LiteralLength(text, quote) && Scan(text, Literal(quote)) == text[..m] + Scan(text[m..], Code)
  {
    m := if Escapes(text) then 2 else 1;
    assert text[..1] == [text[0]];
    hide Escapes;
  }

  lemma LiteralCuts(text: string, m: nat, n: nat)
    requires m <= n <= |text|
    ensures text[m..][n - m..] == text[n..] && text[..n] == text[..m] + text[m..][..n - m]
  {
  }

  lemma PieceScanned(text: string)
    requires text != []
    ensures var p := FirstPiece(text);
            |Source(p)| <= |text| && Scan(text, Code) == Stripped(p) + Scan(text[|Source(p)|..], Code)
  {
    hide Scan, LineLength, BlockLength, LiteralLength, Blanks, Inside, IsQuote;
    if Opens(text, '/') {
      LineScanned(text, LineLength(text[2..]));
    } else if Opens(text, '*') {
      BlockScanned(text, BlockLength(text[2..]));
    } else {
      PlainScanned(text);
      if IsQuote(text[0]) {
        QuotedScanned(text, LiteralLength(text[1..], text[0]));
      }
    }
  }

  lemma LineScanned(text: string, n: nat)
    requires Opens(text, '/') && n == LineLength(text[2..])
    ensures text[..2 + n][2..] == text[2..][..n]
    ensures Scan(text, Code) == " " + Blanks(text[2..][..n]) + Scan(text[2 + n..], Code)
  {
    CommentScanned(text, n, LineComment);
    ScanLine(text[2..]);
    hide *;
    Regroup(" ", Blanks(text[2..][..n]), Scan(text[2 + n..], Code));
  }

  lemma BlockScanned(text: string, n: nat)
    requires Opens(text, '*') && n == BlockLength(text[2..])
    ensures text[..2 + n][2..] == text[2..][..n]
    ensures Scan(text, Code) == " " + Inside(text[2..][..n]) + Scan(text[2 + n..], Code)
  {
    CommentScanned(text, n, BlockComment);
    ScanBlock(text[2..]);
    hide *;
    Regroup(" ", Inside(text[2..][..n]), Scan(text[2 + n..], Code));
  }

  lemma QuotedScanned(text: string, n: nat)
    requires text != [] && n == LiteralLength(text[1..], text[0])
    requires Scan(text, Code) == [text[0]] + Scan(text[1..], Literal(text[0]))
    ensures Scan(text, Code) == text[..1 + n] + Scan(text[1 + n..], Code)
  {
    hide *;
    ScanLiteral(text[1..], text[0]);
    QuoteCuts(text, n);
    Regroup([text[0]], text[1..][..n], Scan(text[1 + n..], Code));
  }

  lemma QuoteCuts(text: string, n: nat)
    requires n < |text|
    ensures text[..1 + n] == [text[0]] + text[1..][..n] && text[1..][n..] == text[1 + n..]
  {
  }

  lemma Regroup(a: string, b: string, c: string)
    ensures a + (b + c) == a + b + c
  {
  }

  lemma CommentScanned(text: string, n: nat, next: State)
    requires (Opens(text, '/') && next.LineComment?) || (Opens(text, '*') && next.BlockComment?)
    requires n <= |text| - 2
    ensures Scan(text, Code) == " " + Scan(text[2..], next)
    ensures text[..2 + n][2..] == text[2..][..n] && text[2..][n..] == text[2 + n..] && |text[..2 + n]| == 2 + n
  {
  }

  lemma PlainScanned(text: string)
    requires text != [] && !Opens(text, '/') && !Opens(text, '*')
    ensures Scan(text, Code) == [text[0]] + Scan(text[1..], if IsQuote(text[0]) then Literal(text[0]) else Code)
  {
    hide Opens, IsQuote;
  }

  /** Nothing of a comment is left but blanks and line ends. */
  lemma CommentsVanish(p: Piece, i: nat)
    requires (p.Line? || p.Block?) && i < |Stripped(p)|
    ensures Stripped(p)[i] == ' ' || IsNewline(Stripped(p)[i])
  {
    if p.Block? && |p.text| >= 2 && i > 0 {
      InsideBlank(p.text[2..], i - 1);
    }
  }

  lemma {:induction false} InsideBlank(text: string, i: nat)
    requires i < |Inside(text)|
    ensures Inside(text)[i] == ' ' || IsNewline(Inside(text)[i])
  {
    if i > 0 {
      InsideBlank(text[1..], i - 1);
    }
  }

  /** The scan agrees with the reading: the pieces make up the text, and stripping leaves of each what a
      piece leaves, so literals are copied unchanged and comments keep only blanks and line ends. */
  lemma {:induction false} StripMeaning(text: string)
    ensures Whole(Pieces(text)) == text
    ensures Strip(text) == Left(Pieces(text))
    decreases |text|
  {
    PiecesWhole(text);
    if text != [] {
      PieceScanned(text);
      FirstSource(text);
      hide FirstPiece, Source, Stripped, Scan;
      StripMeaning(text[|Source(FirstPiece(text))|..]);
    } else {
      assert Scan([], Code) == [];
    }
  }

  // ---------------------------------------------------------------- nothing left to strip

  predicate IsComment(p: Piece) {
    p.Line? || p.Block?
  }

  /** Comments have their opening mark. */
  ghost predicate Marked(ps: seq<Piece>) {
    forall i :: 0 <= i < |ps| && IsComment(ps[i]) ==> |ps[i].text| >= 2
  }

  lemma {:induction false} PiecesMarked(text: string)
    ensures Marked(Pieces(text))
    decreases |text|
  {
    if text != [] {
      FirstSource(text);
      assert IsComment(FirstPiece(text)) ==> |FirstPiece(text).text| >= 2;
      hide FirstPiece, Source, IsComment;
      PiecesMarked(text[|Source(FirstPiece(text))|..]);
    }
  }

  lemma InsideLength(text: string)
    ensures |Inside(text)| <= |text|
  {
  }

  lemma StrippedLength(p: Piece)
    requires IsComment(p) ==> |p.text| >= 2
    ensures |Stripped(p)| <= |Source(p)| && (IsComment(p) ==> |Stripped(p)| < |Source(p)|)
  {
    if p.Block? {
      InsideLength(p.text[2..]);
      hide Inside;
    }
  }

  /** What is left is shorter by at least one character for each comment. */
  lemma {:induction false} CommentsShrink(ps: seq<Piece>)
    requires Marked(ps)
    ensures |Left(ps)| <= |Whole(ps)|
    ensures (exists i :: 0 <= i < |ps| && IsComment(ps[i])) ==> |Left(ps)| < |Whole(ps)|
  {
    if ps != [] {
      assert forall i :: 0 < i < |ps| ==> ps[i] == ps[1..][i - 1];
      StrippedLength(ps[0]);
      CommentsShrink(ps[1..]);
      hide Stripped, Source, IsComment;
    }
  }

  /** A stripped text, read as C again, has no comment. */
  lemma NoCommentLeft(text: string, i: nat)
    requires i < |Pieces(Strip(text))|
    ensures !IsComment(Pieces(Strip(text))[i])
  {
    StripIdempotent(text);
    StripMeaning(Strip(text));
    PiecesMarked(Strip(text));
    CommentsShrink(Pieces(Strip(text)));
    hide Strip, Pieces, IsComment, Left, Whole;
  }

  // ---------------------------------------------------------------- where a piece begins and ends

  /** The mark `a`, `b` stands at position `i`. */
  predicate MarkAt(text: string, i: nat, a: char, b: char) {
    i + 1 < |text| && text[i] == a && text[i + 1] == b
  }

  /** Two slashes begin a line comment, slash and star a block comment, and either quote a literal. */
  lemma PieceBegins(text: string)
    requires text != []
    ensures FirstPiece(text).Line? <==> MarkAt(text, 0, '/', '/')
    ensures FirstPiece(text).Block? <==> MarkAt(text, 0, '/', '*')
    ensures FirstPiece(text).Quoted? <==> text[0] == '\"' || text[0] == '\''
    ensures Source(FirstPiece(text)) <= text
  {
    FirstSource(text);
    hide LineLength, BlockLength, LiteralLength;
  }

  /** A line comment goes up to the next line end. */
  lemma LineEnds(text: string)
    requires text != [] && FirstPiece(text).Line?
    ensures var n := |Source(FirstPiece(text))|;
            && (forall i :: 2 <= i < n ==> text[i] != '\n' && text[i] != '\r')
            && (n < |text| ==> text[n] == '\n' || text[n] == '\r')
  {
    var rest := text[2..];
    var n := LineLength(rest);
    assert forall i :: 2 <= i < 2 + n ==> text[i] == rest[i - 2];
    hide LineLength;
  }

  /** A block comment goes up to and with the first closing mark behind its opening one. */
  lemma BlockEnds(text: string)
    requires text != [] && FirstPiece(text).Block?
    ensures var n := |Source(FirstPiece(text))|;
            && (forall i :: 2 <= i < n - 2 ==> !MarkAt(text, i, '*', '/'))
            && (n < |text| ==> n >= 4 && MarkAt(text, n - 2, '*', '/'))
  {
    var rest := text[2..];
    FirstClosing(rest);
    var n := BlockLength(rest);
    hide BlockLength;
    forall i | 2 <= i < n ensures !MarkAt(text, i, '*', '/') {
      assert !MarkAt(rest, i - 2, '*', '/');
    }
  }

  lemma {:induction false} FirstClosing(text: string)
    ensures var n := BlockLength(text);
            && (forall i: nat :: i + 2 < n ==> !MarkAt(text, i, '*', '/'))
            && (n < |text| ==> n >= 2 && MarkAt(text, n - 2, '*', '/'))
  {
    if text != [] && !Closes(text) {
      var rest := text[1..];
      FirstClosing(rest);
      forall i: nat | i + 2 < BlockLength(text) ensures !MarkAt(text, i, '*', '/') {
        if i > 0 {
          assert !MarkAt(rest, i - 1, '*', '/');
        }
      }
    }
  }

  /** The length of the run of backslashes in front of position `i`. */
  function Run(text: string, i: nat): nat
    requires i <= |text|
  {
    if i == 0 || text[i - 1] != '\\' then 0 else 1 + Run(text, i - 1)
  }

  /** A quote that no backslash escapes: an even number of them stands before it. */
  predicate ClosingAt(text: string, i: nat, quote: char) {
    i < |text| && text[i] == quote && Run(text, i) % 2 == 0
  }

  /** A literal goes up to and with the first quote of its kind that is not escaped. */
  lemma LiteralEnds(text: string)
    requires text != [] && FirstPiece(text).Quoted?
    ensures var n, inside := |Source(FirstPiece(text))|, text[1..];
            && (forall i: nat :: i + 2 < n ==> !ClosingAt(inside, i, text[0]))
            && (n < |text| ==> n >= 2 && ClosingAt(inside, n - 2, text[0]))
  {
    FirstUnescaped(text[1..], text[0]);
    hide LiteralLength, ClosingAt;
  }

  lemma {:induction false} FirstUnescaped(text: string, quote: char)
    requires quote != '\\'
    ensures var n := LiteralLength(text, quote);
            && (forall i: nat :: i + 1 < n ==> !ClosingAt(text, i, quote))
            && (n < |text| ==> n >= 1 && ClosingAt(text, n - 1, quote))
  {
    if text != [] && (Escapes(text) || text[0] != quote) {
      var k := if Escapes(text) then 2 else 1;
      var rest, n := text[k..], LiteralLength(text, quote);
      FirstUnescaped(rest, quote);
      forall i: nat | k <= i < |text| ensures ClosingAt(text, i, quote) <==> ClosingAt(rest, i - k, quote) {
        RunBehind(text, k, i);
      }
      forall i: nat | i + 1 < n ensures !ClosingAt(text, i, quote) {
        if i >= k {
          assert !ClosingAt(rest, i - k, quote);
        } else if i == 1 {
          assert Run(text, 1) == 1 + Run(text, 0);
        }
      }
    }
  }

  /** A pair of characters that begins with a backslash, or one other character, leaves the parity of a run. */
  lemma {:induction false} RunBehind(text: string, k: nat, i: nat)
    requires k <= i < |text|
    requires (k == 1 && text[0] != '\\') || (k == 2 && text[0] == '\\')
    ensures Run(text, i) % 2 == Run(text[k..], i - k) % 2
  {
    if i > k {
      RunBehind(text, k, i - 1);
      assert text[k..][i - k - 1] == text[i - 1];
    } else if k == 2 {
      assert Run(text, 1) == 1;
    }
  }

  // ---------------------------------------------------------------- what is left of a comment

  /** What stands for one character of a comment. */
  predicate Blanked(c: char, left: char) {
    left == if c == '\n' || c == '\r' then c else ' '
  }

  /** The opening mark leaves one blank, every character behind it itself or a blank. */
  lemma LineLeaves(text: string)
    requires |text| >= 2
    ensures var left := Stripped(Line(text));
            && |left| == |text| - 1 && left[0] == ' '
            && forall i :: 2 <= i < |text| ==> Blanked(text[i], left[i - 1])
  {
    hide Blanks;
  }

  /** Likewise in a block comment, whose closing mark leaves one blank too. */
  lemma BlockLeaves(text: string)
    requires |text| >= 2
    ensures var left := Stripped(Block(text));
            && left[0] == ' '
            && if |text| >= 4 && text[|text| - 2] == '*' && text[|text| - 1] == '/'
               then |left| == |text| - 2 && left[|left| - 1] == ' '
                    && forall i :: 2 <= i < |text| - 2 ==> Blanked(text[i], left[i - 1])
               else |left| == |text| - 1 && forall i :: 2 <= i < |text| ==> Blanked(text[i], left[i - 1])
  {
    InsideLeaves(text[2..]);
    hide Inside;
  }

  lemma {:induction false} InsideLeaves(text: string)
    ensures var left := Inside(text);
            if |text| >= 2 && text[|text| - 2] == '*' && text[|text| - 1] == '/'
            then |left| == |text| - 1 && left[|left| - 1] == ' '
                 && forall i :: 0 <= i < |text| - 2 ==> Blanked(text[i], left[i])
            else |left| == |text| && forall i :: 0 <= i < |text| ==> Blanked(text[i], left[i])
  {
    if text != [] && !(|text| == 2 && Closes(text)) {
      var rest := text[1..];
      InsideLeaves(rest);
      assert forall i :: 0 < i < |text| ==> text[i] == rest[i - 1];
      assert Inside(text) == [Blank(text[0])] + Inside(rest);
      hide Inside;
    }
  }
}
