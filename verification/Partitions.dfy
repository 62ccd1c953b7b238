/** The flash layout of ESP boards, after the partition checks and both emitted tables of `board_outputs`
 *  in tools/generate_boards.py. */
module Partitions {
  import opened Prelude

  const SECTOR: int := 4096
  const APP_UNIT: int := 65536
  const FACTORY_OFFSET: int := 0x20000
  const FIXED_END: int := 0x35000

  datatype Ota = Ota(recoveryOffset: int, recoverySize: int, slot0: int, slot1: int, slotSize: int, dataOffset: int,
                     dataSize: int, stagingSize: Option<int>)

  datatype Board = Board(flashBytes: int, factorySize: int, ota: Ota)

  datatype Name =
    | Nvs | OtaData | PhyInit | NvsKeys | OtaJournalA | OtaJournalB | ConfigA | ConfigB | ProvisionA | ProvisionB
    | Factory | RecoveryApp | Ota0 | Ota1 | BundleStage | Cache

  /** One row of a partition table; applications are aligned to 64 KiB, everything else to a sector. */
  datatype Row = Row(name: Name, app: bool, offset: int, size: int) {
    function End(): int {
      offset + size
    }

    function Unit(): int {
      if app then APP_UNIT else SECTOR
    }
  }

  // ---------------------------------------------------------------- the checks

  datatype Region = Region(start: int, size: int, alignment: int)

  function Regions(ota: Ota): seq<Region> {
    [Region(ota.recoveryOffset, ota.recoverySize, APP_UNIT), Region(ota.slot0, ota.slotSize, APP_UNIT),
     Region(ota.slot1, ota.slotSize, APP_UNIT), Region(ota.dataOffset, ota.dataSize, SECTOR)]
  }

  predicate RegionOk(r: Region, end: int)
    requires r.alignment > 0
  {
    !(r.start < end || r.start % r.alignment != 0 || r.size <= 0 || r.size % r.alignment != 0)
  }

  predicate StagingOk(ota: Ota) {
    ota.stagingSize.Some? ==>
      && 0 < ota.stagingSize.value < ota.dataSize
      && ota.stagingSize.value % SECTOR == 0
      && ota.dataOffset % APP_UNIT == 0
  }

  predicate FactoryOk(b: Board) {
    b.factorySize > 0 && b.factorySize % APP_UNIT == 0 && FACTORY_OFFSET + b.factorySize <= b.flashBytes
  }

  predicate FlashReviewed(b: Board) {
    b.flashBytes == 8388608 || b.flashBytes == 16777216
  }

  // ---------------------------------------------------------------- the tables

  function FactoryRows(b: Board): seq<Row> {
    [Row(Nvs, false, 0x9000, 0x6000), Row(PhyInit, false, 0xF000, 0x1000), Row(NvsKeys, false, 0x10000, 0x1000),
     Row(Factory, true, FACTORY_OFFSET, b.factorySize)]
  }

  function SystemRows(): seq<Row> {
    [Row(Nvs, false, 0x19000, 0x6000), Row(OtaData, false, 0x1F000, 0x2000), Row(PhyInit, false, 0x21000, 0x1000),
     Row(NvsKeys, false, 0x22000, 0x1000), Row(OtaJournalA, false, 0x23000, 0x1000)]
  }

  function StateRows(): seq<Row> {
    [Row(OtaJournalB, false, 0x24000, 0x1000), Row(ConfigA, false, 0x25000, 0x4000),
     Row(ConfigB, false, 0x29000, 0x4000), Row(ProvisionA, false, 0x2D000, 0x4000),
     Row(ProvisionB, false, 0x31000, 0x4000)]
  }

  /** The rows that every OTA table begins with. */
  function FixedRows(): seq<Row> {
    SystemRows() + StateRows()
  }

  function AppRows(ota: Ota): seq<Row> {
    [Row(RecoveryApp, true, ota.recoveryOffset, ota.recoverySize), Row(Ota0, true, ota.slot0, ota.slotSize),
     Row(Ota1, true, ota.slot1, ota.slotSize)]
  }

  /** The data region: staging and cache, or cache alone. */
  function DataRows(ota: Ota): seq<Row> {
    if ota.stagingSize.None? then [Row(Cache, false, ota.dataOffset, ota.dataSize)]
    else
      var staging := ota.stagingSize.value;
      [Row(BundleStage, false, ota.dataOffset, staging),
       Row(Cache, false, ota.dataOffset + staging, ota.dataSize - staging)]
  }

  function OtaRows(ota: Ota): seq<Row> {
    FixedRows() + AppRows(ota) + DataRows(ota)
  }

  // ---------------------------------------------------------------- safe tables

  predicate RowOk(r: Row) {
    r.offset >= 0 && r.size > 0 && r.offset % r.Unit() == 0 && r.size % r.Unit() == 0
  }

  /** Aligned rows, each starting where the previous one ends or later. */
  predicate Stacked(rows: seq<Row>) {
    && (forall i :: 0 <= i < |rows| ==> RowOk(rows[i]))
    && forall i :: 0 <= i < |rows| - 1 ==> rows[i].End() <= rows[i + 1].offset
  }

  function Top(rows: seq<Row>): int {
    if rows == [] then 0 else rows[|rows| - 1].End()
  }

  /** The rows of a stacked table are pairwise disjoint and lie below its top. */
  lemma {:induction false} StackedDisjoint(rows: seq<Row>, i: nat, j: nat)
    requires Stacked(rows) && i <= j < |rows|
    ensures 0 <= rows[i].offset < rows[i].End() <= Top(rows)
    ensures i < j ==> rows[i].End() <= rows[j].offset
    decreases |rows| - i
  {
    assert RowOk(rows[i]) && RowOk(rows[j]);
    if i < |rows| - 1 {
      assert RowOk(rows[i + 1]);
      hide RowOk;
      StackedDisjoint(rows, i + 1, if i + 1 < j then j else i + 1);
    }
  }

  lemma StackedJoin(a: seq<Row>, b: seq<Row>)
    requires a != [] && b != []
    ensures Stacked(a + b) <==> Stacked(a) && Stacked(b) && Top(a) <= b[0].offset
    ensures Top(a + b) == Top(b)
  {
    hide RowOk;
    var rows := a + b;
    assert forall i :: 0 <= i < |a| ==> rows[i] == a[i];
    assert forall i :: 0 <= i < |b| ==> rows[|a| + i] == b[i];
    if Stacked(rows) {
      forall i | 0 <= i < |b| ensures RowOk(b[i]) {
        assert RowOk(rows[|a| + i]);
      }
      forall i | 0 <= i < |b| - 1 ensures b[i].End() <= b[i + 1].offset {
        assert rows[|a| + i].End() <= rows[|a| + i + 1].offset;
      }
      assert rows[|a| - 1].End() <= rows[|a| - 1 + 1].offset;
    }
    if Stacked(a) && Stacked(b) && Top(a) <= b[0].offset {
      forall i | 0 <= i < |rows| - 1 ensures rows[i].End() <= rows[i + 1].offset {
        if i >= |a| {
          assert b[i - |a|].End() <= b[i - |a| + 1].offset;
        }
      }
    }
  }

  /** Rows without a gap. */
  predicate Gapless(rows: seq<Row>) {
    forall i :: 0 <= i < |rows| - 1 ==> rows[i].End() == rows[i + 1].offset
  }

  lemma FiveStacked(rows: seq<Row>)
    requires |rows| == 5
    requires RowOk(rows[0]) && RowOk(rows[1]) && RowOk(rows[2]) && RowOk(rows[3]) && RowOk(rows[4])
    requires rows[0].End() == rows[1].offset && rows[1].End() == rows[2].offset
    requires rows[2].End() == rows[3].offset && rows[3].End() == rows[4].offset
    ensures Stacked(rows) && Gapless(rows)
  {
    hide RowOk, Row.End;
  }

  lemma SystemStacked()
    ensures SystemRows() != [] && Stacked(SystemRows()) && Gapless(SystemRows()) && Top(SystemRows()) == 0x24000
  {
    hide Stacked, Gapless;
    FiveStacked(SystemRows());
  }

  lemma StateStacked()
    ensures Stacked(StateRows()) && Gapless(StateRows()) && Top(StateRows()) == FIXED_END
    ensures StateRows() != [] && StateRows()[0].offset == 0x24000
  {
    hide Stacked, Gapless;
    FiveStacked(StateRows());
  }

  /** The fixed rows follow each other without a gap and end exactly where the variable rows may begin. */
  lemma FixedStacked()
    ensures FixedRows() != [] && Stacked(FixedRows()) && Gapless(FixedRows()) && Top(FixedRows()) == FIXED_END
  {
    SystemStacked();
    StateStacked();
    hide SystemRows, StateRows, Stacked, RowOk;
    StackedJoin(SystemRows(), StateRows());
    var a, b, rows := SystemRows(), StateRows(), FixedRows();
    forall i | 0 <= i < |rows| - 1 ensures rows[i].End() == rows[i + 1].offset {
      if i >= |a| {
        assert b[i - |a|].End() == b[i - |a| + 1].offset;
      }
    }
  }

  lemma AppsStacked(ota: Ota)
    ensures ota.recoveryOffset >= 0 ==>
              (Stacked(AppRows(ota)) <==>
                && RegionOk(Regions(ota)[0], 0)
                && RegionOk(Regions(ota)[1], ota.recoveryOffset + ota.recoverySize)
                && RegionOk(Regions(ota)[2], ota.slot0 + ota.slotSize))
    ensures Top(AppRows(ota)) == ota.slot1 + ota.slotSize
  {
    var rows := AppRows(ota);
    assert Stacked(rows) <==> RowOk(rows[0]) && RowOk(rows[1]) && RowOk(rows[2]) && rows[0].End() <= rows[1].offset
                              && rows[1].End() <= rows[2].offset;
  }

  lemma DataStacked(ota: Ota)
    requires ota.stagingSize.Some? ==> ota.dataOffset % APP_UNIT == 0
    ensures ota.dataOffset >= 0 ==>
              (Stacked(DataRows(ota)) <==> RegionOk(Regions(ota)[3], 0) && StagingOk(ota))
    ensures Top(DataRows(ota)) == ota.dataOffset + ota.dataSize
  {
    var rows := DataRows(ota);
    if ota.stagingSize.Some? {
      assert Stacked(rows) <==> RowOk(rows[0]) && RowOk(rows[1]) && rows[0].End() <= rows[1].offset;
    } else {
      assert Stacked(rows) <==> RowOk(rows[0]);
    }
  }

  // ---------------------------------------------------------------- the validator

  /** Where the last region ends, when every region starts at the end of the previous one or later. */
  function Chain(regions: seq<Region>, end: int): Option<int> {
    if regions == [] then Some(end)
    else if regions[0].alignment <= 0 || !RegionOk(regions[0], end) then None
    else Chain(regions[1..], regions[0].start + regions[0].size)
  }

  predicate Accepted(b: Board) {
    && FlashReviewed(b)
    && FactoryOk(b)
    && Chain(Regions(b.ota), FIXED_END) == Some(b.flashBytes)
    && StagingOk(b.ota)
  }

  method ValidateLayout(b: Board) returns (ok: bool)
    ensures ok <==> Accepted(b)
  {
    if !FlashReviewed(b) || b.factorySize <= 0 || b.factorySize % 65536 != 0 || 0x20000 + b.factorySize > b.flashBytes {
      return false;
    }
    var end := 0x35000;
    var regions := Regions(b.ota);
    assert regions[0..] == regions;
    for i := 0 to |regions|
      invariant Chain(regions, FIXED_END) == Chain(regions[i..], end)
    {
      hide Regions;
      var r := regions[i];
      assert regions[i..][0] == r && regions[i..][1..] == regions[i + 1..];
      if r.alignment <= 0 || r.start < end || r.start % r.alignment != 0 || r.size <= 0 || r.size % r.alignment != 0 {
        return false;
      }
      end := r.start + r.size;
    }
    if end != b.flashBytes {
      return false;
    }
    var staging := b.ota.stagingSize;
    if staging.Some? && (!(0 < staging.value < b.ota.dataSize) || staging.value % 4096 != 0) {
      return false;
    }
    if staging.Some? && b.ota.dataOffset % 65536 != 0 {
      return false;
    }
    ok := true;
  }

  lemma ChainRegions(ota: Ota, end: int, flash: int)
    ensures Chain(Regions(ota), end) == Some(flash) <==>
              && RegionOk(Regions(ota)[0], end)
              && RegionOk(Regions(ota)[1], ota.recoveryOffset + ota.recoverySize)
              && RegionOk(Regions(ota)[2], ota.slot0 + ota.slotSize)
              && RegionOk(Regions(ota)[3], ota.slot1 + ota.slotSize)
              && ota.dataOffset + ota.dataSize == flash
  {
    var r := Regions(ota);
    hide RegionOk;
    assert r[1..] == [r[1], r[2], r[3]] && r[1..][1..] == [r[2], r[3]] && r[1..][1..][1..] == [r[3]];
    assert [r[3]][1..] == [];
    ChainStep(r, end);
    ChainStep(r[1..], r[0].start + r[0].size);
    ChainStep(r[1..][1..], r[1].start + r[1].size);
    ChainStep([r[3]], r[2].start + r[2].size);
    hide Chain;
    assert Chain([], r[3].start + r[3].size) == Some(r[3].start + r[3].size) by {
      ChainEnd(r[3].start + r[3].size);
    }
  }

  lemma ChainEnd(end: int)
    ensures Chain([], end) == Some(end)
  {
  }

  lemma ChainStep(regions: seq<Region>, end: int)
    requires regions != [] && regions[0].alignment > 0
    ensures Chain(regions, end)
         == if RegionOk(regions[0], end) then Chain(regions[1..], regions[0].start + regions[0].size) else None
  {
    hide RegionOk;
  }

  lemma FactoryStacked(b: Board)
    ensures FactoryOk(b) <==> Stacked(FactoryRows(b)) && Top(FactoryRows(b)) <= b.flashBytes
  {
    var rows := FactoryRows(b);
    assert Stacked(rows) <==> RowOk(rows[3]) by {
      assert RowOk(rows[0]) && RowOk(rows[1]) && RowOk(rows[2]);
    }
  }

  /** A board is accepted exactly when its flash size is a reviewed one and both tables are safe: aligned,
      ordered without overlap, inside the flash, and in the OTA table up to its very end. */
  lemma AcceptedIsSafe(b: Board)
    ensures Accepted(b) <==>
              && FlashReviewed(b)
              && Stacked(FactoryRows(b)) && Top(FactoryRows(b)) <= b.flashBytes
              && Stacked(OtaRows(b.ota)) && Top(OtaRows(b.ota)) == b.flashBytes
              && (b.ota.stagingSize.Some? ==> b.ota.dataOffset % APP_UNIT == 0)
  {
    FactoryStacked(b);
    ChainRegions(b.ota, FIXED_END, b.flashBytes);
    FixedStacked();
    StackedJoin(FixedRows(), AppRows(b.ota));
    StackedJoin(FixedRows() + AppRows(b.ota), DataRows(b.ota));
    AppsStacked(b.ota);
    if b.ota.stagingSize.Some? ==> b.ota.dataOffset % APP_UNIT == 0 {
      DataStacked(b.ota);
    }
    hide Stacked, FixedRows, FactoryRows, FactoryOk, FlashReviewed, Chain;
  }

  /** Staging and cache split the data region exactly, and it ends with the flash. */
  lemma DataSplit(b: Board)
    requires Accepted(b)
    ensures var rows := DataRows(b.ota);
            && rows[0].offset == b.ota.dataOffset && Top(rows) == b.flashBytes && Gapless(rows)
            && |rows| == if b.ota.stagingSize.Some? then 2 else 1
  {
    ChainRegions(b.ota, FIXED_END, b.flashBytes);
    hide Chain, RegionOk, FactoryOk, FlashReviewed, StagingOk;
  }

  /** No two rows of a table of an accepted board overlap, and every row lies inside the flash. */
  lemma AcceptedDisjoint(b: Board, rows: seq<Row>, i: nat, j: nat)
    requires Accepted(b) && (rows == FactoryRows(b) || rows == OtaRows(b.ota)) && i < j < |rows|
    ensures 0 <= rows[i].offset < rows[i].End() <= rows[j].offset < rows[j].End() <= b.flashBytes
  {
    AcceptedIsSafe(b);
    hide Accepted, FactoryRows, OtaRows, Stacked;
    StackedDisjoint(rows, i, j);
    StackedDisjoint(rows, j, j);
  }

  // ---------------------------------------------------------------- every row and every check

  function Names(rows: seq<Row>): seq<Name> {
    seq(|rows|, i requires 0 <= i < |rows| => rows[i].name)
  }

  function Extents(rows: seq<Row>): seq<(int, int)> {
    seq(|rows|, i requires 0 <= i < |rows| => (rows[i].offset, rows[i].size))
  }

  /** Which partitions the tables hold, in which order. */
  lemma TableNames(b: Board)
    ensures Names(FactoryRows(b)) == [Nvs, PhyInit, NvsKeys, Factory]
    ensures Names(OtaRows(b.ota))
         == [Nvs, OtaData, PhyInit, NvsKeys, OtaJournalA, OtaJournalB, ConfigA, ConfigB, ProvisionA, ProvisionB,
             RecoveryApp, Ota0, Ota1] + if b.ota.stagingSize.Some? then [BundleStage, Cache] else [Cache]
  {
  }

  /** The rows that hold an application. */
  lemma Applications(b: Board, row: Row)
    requires row in FactoryRows(b) || row in OtaRows(b.ota)
    ensures row.app <==> row.name in {Factory, RecoveryApp, Ota0, Ota1}
  {
    assert row in OtaRows(b.ota) ==>
             row in SystemRows() || row in StateRows() || row in AppRows(b.ota) || row in DataRows(b.ota);
  }

  /** Where the partitions lie, and how long they are. */
  lemma TableExtents(b: Board)
    ensures Extents(FactoryRows(b))
         == [(0x9000, 0x6000), (0xF000, 0x1000), (0x10000, 0x1000), (0x20000, b.factorySize)]
    ensures Extents(OtaRows(b.ota))
         == [(0x19000, 0x6000), (0x1F000, 0x2000), (0x21000, 0x1000), (0x22000, 0x1000), (0x23000, 0x1000),
             (0x24000, 0x1000), (0x25000, 0x4000), (0x29000, 0x4000), (0x2D000, 0x4000), (0x31000, 0x4000),
             (b.ota.recoveryOffset, b.ota.recoverySize), (b.ota.slot0, b.ota.slotSize), (b.ota.slot1, b.ota.slotSize)]
            + match b.ota.stagingSize
              case None => [(b.ota.dataOffset, b.ota.dataSize)]
              case Some(n) => [(b.ota.dataOffset, n), (b.ota.dataOffset + n, b.ota.dataSize - n)]
  {
  }

  /** A board is accepted exactly when the four regions follow each other above 0x35000 on their units, fill the
      flash of 8 or 16 MiB, and factory and staging fit. */
  lemma AcceptedMeaning(b: Board)
    ensures Accepted(b) <==>
              var o := b.ota;
              && (b.flashBytes == 8 * 1024 * 1024 || b.flashBytes == 16 * 1024 * 1024)
              && b.factorySize > 0 && b.factorySize % 65536 == 0 && 0x20000 + b.factorySize <= b.flashBytes
              && o.recoverySize > 0 && o.slotSize > 0 && o.dataSize > 0
              && o.recoveryOffset % 65536 == o.recoverySize % 65536 == 0
              && o.slot0 % 65536 == o.slot1 % 65536 == o.slotSize % 65536 == 0
              && o.dataOffset % 4096 == o.dataSize % 4096 == 0
              && 0x35000 <= o.recoveryOffset && o.recoveryOffset + o.recoverySize <= o.slot0
              && o.slot0 + o.slotSize <= o.slot1 && o.slot1 + o.slotSize <= o.dataOffset
              && o.dataOffset + o.dataSize == b.flashBytes
              && (o.stagingSize.Some? ==>
                    && 0 < o.stagingSize.value < o.dataSize && o.stagingSize.value % 4096 == 0
                    && o.dataOffset % 65536 == 0)
  {
    ChainRegions(b.ota, FIXED_END, b.flashBytes);
    hide Chain;
  }
}
