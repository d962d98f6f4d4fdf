/**
 Decoding boot entries (service/power_ctl.go, prog_wim/main.go), in the EFI_LOAD_OPTION format of section 3.1.3
 of the UEFI Specification 2.10: attributes, path list length, a zero-terminated UTF-16 description, the path
 list, optional data. UTF-16 decoding and trimming are applied to the units recovered here.
 */
module LoadOption {
  import opened Options
  import opened Files
  import opened LittleEndian
  import opened DevicePath

  /** The units from byte i on, up to a zero unit; whether that zero was reached. The last two bytes are never read. */
  function Scan(b: Bytes, i: nat): (seq<uint16>, bool)
    decreases |b| - i
  {
    if i + 2 >= |b| then ([], false)
    else if Get16(b, i) == 0 then ([], true)
    else
      var (units, terminated) := Scan(b, i + 2);
      ([Get16(b, i)] + units, terminated)
  }

  function Zeros(n: nat): (z: seq<uint16>)
    ensures |z| == n
  {
    seq(n, _ => 0)
  }

  datatype Description = Units(units: seq<uint16>) | Panic

  /** What getBootDesc hands to the UTF-16 decoder. */
  function Describe(b: Bytes): Description {
    if |b| == 0 then Units([])
    else if |b| < 6 then Panic
    else
      var (units, terminated) := Scan(b, 6);
      ScanLength(b, 6);
      Units(if terminated then units else units + Zeros(|b| / 2 - |units|))
  }

  lemma {:induction false} ScanLength(b: Bytes, i: nat)
    ensures i <= |b| ==> i + 2 * |Scan(b, i).0| <= |b|
    decreases |b| - i
  {
    if i + 2 < |b| && Get16(b, i) != 0 {
      ScanLength(b, i + 2);
    }
  }

  lemma ScanEnd(b: Bytes, i: nat)
    requires i + 2 >= |b|
    ensures Scan(b, i) == ([], false)
  {
  }

  lemma ScanStep(b: Bytes, i: nat, done: seq<uint16>, whole: seq<uint16>)
    requires whole == done + Scan(b, i).0 && i + 2 < |b|
    ensures Get16(b, i) == 0 ==> whole == done && Scan(b, i).1
    ensures Get16(b, i) != 0 ==> whole == done + [Get16(b, i)] + Scan(b, i + 2).0 && Scan(b, i).1 == Scan(b, i + 2).1
  {
    hide Get16;
    if Get16(b, i) == 0 {
      assert done + [] == done;
    } else {
      assert done + ([Get16(b, i)] + Scan(b, i + 2).0) == done + [Get16(b, i)] + Scan(b, i + 2).0;
    }
  }

  /**
   The loop over the units, the same in both decoders: every index it uses is in bounds. It gives the buffer, and
   the offset at which it left.
   */
  method ReadUnits(b: Bytes) returns (str: seq<uint16>, i: nat, terminated: bool)
    requires |b| >= 6
    ensures |str| == |b| / 2 && 6 <= i <= |b| && i % 2 == 0 && i / 2 - 3 <= |str|
    ensures Scan(b, 6) == (str[..i / 2 - 3], terminated)
    ensures forall k :: i / 2 - 3 <= k < |str| ==> str[k] == 0
    ensures terminated ==> i + 2 < |b|
  {
    hide Get16, Scan;
    var buffer := new uint16[|b| / 2](_ => 0);
    ghost var whole := Scan(b, 6);
    i, terminated := 6, false;
    while i < |b| - 2 && !terminated
      invariant 6 <= i <= |b| && i % 2 == 0 && i / 2 - 3 <= buffer.Length
      invariant terminated ==> whole == (buffer[..i / 2 - 3], true) && i + 2 < |b|
      invariant !terminated ==> whole.0 == buffer[..i / 2 - 3] + Scan(b, i).0 && whole.1 == Scan(b, i).1
      invariant forall k :: i / 2 - 3 <= k < buffer.Length ==> buffer[k] == 0
      decreases |b| - i, !terminated
    {
      var v := Get16(b, i);
      ScanStep(b, i, buffer[..i / 2 - 3], whole.0);
      if v == 0 {
        terminated := true;
      } else {
        ghost var before := buffer[..i / 2 - 3];
        buffer[i / 2 - 3] := v;
        assert buffer[..i / 2 - 2] == before + [v];
        i := i + 2;
      }
    }
    if !terminated {
      ScanEnd(b, i);
      assert buffer[..i / 2 - 3] + [] == buffer[..i / 2 - 3];
    }
    str := buffer[..];
    assert str[..i / 2 - 3] == buffer[..i / 2 - 3];
  }

  /** What the service decodes, or a panic on a short header. */
  method GetBootDesc(b: Bytes) returns (d: Description)
    ensures d == Describe(b)
  {
    if |b| == 0 {
      return Units([]);
    }
    if |b| < 6 {
      return Panic;
    }
    hide Get16, Scan;
    var str, i, terminated := ReadUnits(b);
    ScanLength(b, 6);
    if terminated {
      return Units(str[..i / 2 - 3]);
    }
    assert str == str[..i / 2 - 3] + Zeros(|b| / 2 - |Scan(b, 6).0|);
    return Units(str);
  }

  /** Both decoders panic on a header that is cut short, and neither does on an empty variable. */
  lemma ShortHeaderPanics(b: Bytes)
    ensures Describe(b) == Panic <==> 1 <= |b| <= 5
    ensures 1 <= |b| <= 5 ==> ParseEntry(b) == None
    ensures Describe([]) == Units([]) && ParseEntry([]) == Some(Nothing)
  {
    hide Scan, Get16, ParsePath;
  }

  /** Without a zero unit before the last two bytes nothing is terminated. */
  lemma {:induction false} NoTerminator(b: Bytes, i: nat)
    requires forall j: nat :: i <= j && j % 2 == i % 2 && j + 2 < |b| ==> Get16(b, j) != 0
    ensures !Scan(b, i).1
    decreases |b| - i
  {
    if i + 2 < |b| {
      NoTerminator(b, i + 2);
    }
  }

  /** The tool looks for the path list of an entry without a terminator at its very beginning. */
  lemma UnterminatedEntry(b: Bytes)
    requires |b| >= 6
    requires forall j: nat :: 6 <= j && j % 2 == 0 && j + 2 < |b| ==> Get16(b, j) != 0
    ensures var length: nat := b[4] as int + 256 * b[5] as int;
            ParseEntry(b) ==
              if length > |b| || ParsePath(b[..length]) == None then None
              else Some(Entry([], false, ParsePath(b[..length]).value, b[length..]))
  {
    NoTerminator(b, 6);
    UnitValue(b, 4);
    hide Scan, ParsePath, Get16;
    var length := Get16(b, 4);
    if length <= |b| {
      assert b[0..length] == b[..length];
    }
  }

  // ---------------------------------------------------------------- round trips

  predicate ZeroFree(units: seq<uint16>) {
    forall i :: 0 <= i < |units| ==> units[i] != 0
  }

  /** A load option with the given parts; tail is the path list and the optional data. */
  function Build(attributes: nat, pathLength: uint16, units: seq<uint16>, tail: Bytes): Bytes {
    Put(attributes, 4) + Put16(pathLength) + PutAll(units) + Put16(0) + tail
  }

  lemma UnitAt(units: seq<uint16>, k: nat)
    requires k < |units|
    ensures Get16(PutAll(units), 2 * k) == units[k]
  {
    PutAllAt(units, k);
  }

  lemma BuildAt(attributes: nat, pathLength: uint16, units: seq<uint16>, tail: Bytes)
    ensures var b := Build(attributes, pathLength, units, tail);
            && |b| == 8 + 2 * |units| + |tail|
            && b[..4] == Put(attributes, 4) && Get16(b, 4) == pathLength
            && (forall k: nat :: k < |units| ==> Get16(b, 6 + 2 * k) == units[k])
            && Get16(b, 6 + 2 * |units|) == 0
            && b[8 + 2 * |units|..] == tail
  {
    var b := Build(attributes, pathLength, units, tail);
    var u := PutAll(units);
    Get16Put16(pathLength);
    assert b[4] == Put16(pathLength)[0] && b[5] == Put16(pathLength)[1];
    forall k: nat | k < |units| ensures Get16(b, 6 + 2 * k) == units[k] {
      UnitAt(units, k);
      assert b[6 + 2 * k] == u[2 * k] && b[6 + 2 * k + 1] == u[2 * k + 1];
    }
  }

  lemma {:induction false} ScanBuilt(b: Bytes, units: seq<uint16>, k: nat)
    requires k <= |units| && ZeroFree(units) && |b| >= 8 + 2 * |units|
    requires forall j: nat :: j < |units| ==> Get16(b, 6 + 2 * j) == units[j]
    requires Get16(b, 6 + 2 * |units|) == 0
    ensures Scan(b, 6 + 2 * k) == (units[k..], |b| > 8 + 2 * |units|)
    decreases |units| - k
  {
    if k < |units| {
      ScanBuilt(b, units, k + 1);
      assert units[k..] == [units[k]] + units[k + 1..];
      assert Get16(b, 6 + 2 * k) == units[k];
    }
  }

  /**
   For a zero-free description the units are recovered exactly if and only if at least one byte follows
   the terminator; without one, four zero units are appended.
   */
  lemma DescriptionRoundTripIff(attributes: nat, pathLength: uint16, units: seq<uint16>, tail: Bytes)
    requires ZeroFree(units)
    ensures var d := Describe(Build(attributes, pathLength, units, tail));
            && (d == Units(units) <==> tail != [])
            && (tail == [] ==> d == Units(units + Zeros(4)))
  {
    var b := Build(attributes, pathLength, units, tail);
    BuildAt(attributes, pathLength, units, tail);
    ScanBuilt(b, units, 0);
    assert units[0..] == units;
    if tail == [] {
      assert |b| / 2 == |units| + 4;
    }
  }

  /** What the inspection tool prints of an entry: description, path nodes, optional data. */
  datatype Entry = Nothing | Entry(units: seq<uint16>, terminated: bool, nodes: seq<Node>, options: Bytes)

  /**
   The tool's decoder. An empty variable has nothing to show; a description without terminator leaves the path
   list looked for at offset zero.
   */
  function ParseEntry(b: Bytes): Option<Entry> {
    if |b| == 0 then Some(Nothing)
    else if |b| < 6 then None
    else
      var (units, terminated) := Scan(b, 6);
      var start := if terminated then 6 + 2 * |units| + 2 else 0;
      var end := start + Get16(b, 4);
      if end > |b| then None
      else match ParsePath(b[start..end])
        case None => None
        case Some(nodes) => Some(Entry(if terminated then units else [], terminated, nodes, b[end..]))
  }

  /** The tool leaves the loop at the terminator with the offset behind it. */
  method Inspect(b: Bytes) returns (e: Option<Entry>)
    ensures e == ParseEntry(b)
  {
    if |b| == 0 {
      return Some(Nothing);
    }
    if |b| < 6 {
      return None;
    }
    hide Get16, Scan, ParsePath;
    var str, i, terminated := ReadUnits(b);
    var desc: seq<uint16>, start: nat := [], 0;
    if terminated {
      desc := str[..i / 2 - 3];
      start := i + 2;
    }
    var end := start + Get16(b, 4);
    if end > |b| {
      return None;
    }
    var nodes := ParsePath(b[start..end]);
    if nodes.None? {
      return None;
    }
    return Some(Entry(desc, terminated, nodes.value, b[end..]));
  }

  /** The decoder on an entry whose fields are known. */
  lemma ParseEntryFrom(b: Bytes, units: seq<uint16>, nodes: seq<Node>, start: nat, end: nat)
    requires start == 8 + 2 * |units| <= end <= |b|
    requires Scan(b, 6) == (units, true) && Get16(b, 4) == end - start && ParsePath(b[start..end]) == Some(nodes)
    ensures ParseEntry(b) == Some(Entry(units, true, nodes, b[end..]))
  {
    hide Scan, ParsePath, Get16;
    assert start + Get16(b, 4) == end;
  }

  /** A whole load option is taken apart into exactly the parts it was built from. */
  lemma EntryRoundTrip(attributes: nat, units: seq<uint16>, nodes: seq<Node>, options: Bytes)
    requires ZeroFree(units) && nodes != [] && AllWellFormed(nodes) && |Serialize(nodes)| < 0x1_0000
    ensures var path := Serialize(nodes);
            ParseEntry(Build(attributes, |path|, units, path + options)) == Some(Entry(units, true, nodes, options))
  {
    hide Build, Serialize, Scan, ParsePath, ParseEntry, Get16, ZeroFree, AllWellFormed;
    var path := Serialize(nodes);
    var b := Build(attributes, |path|, units, path + options);
    BuildAt(attributes, |path|, units, path + options);
    ParseSerialized(nodes);
    ScanBuilt(b, units, 0);
    assert units[0..] == units;
    var start := 8 + 2 * |units|;
    TailParts(b, start, path, options);
    ParseEntryFrom(b, units, nodes, start, start + |path|);
  }

  lemma TailParts(b: Bytes, start: nat, path: Bytes, options: Bytes)
    requires start <= |b| && b[start..] == path + options
    ensures start + |path| <= |b|
    ensures b[start..start + |path|] == path && b[start + |path|..] == options
  {
    var tail := b[start..];
    assert b[start..start + |path|] == tail[..|path|];
    assert b[start + |path|..] == tail[|path|..];
  }

  lemma {:induction false} ScanRebuilds(b: Bytes, i: nat)
    requires Scan(b, i).1
    ensures var units := Scan(b, i).0;
            && i + 2 * |units| + 2 < |b|
            && ZeroFree(units)
            && b[i..i + 2 * |units| + 2] == PutAll(units) + Put16(0)
    decreases |b| - i
  {
    Put16Get16(b, i);
    if Get16(b, i) == 0 {
      assert b[i..i + 2] == PutAll([]) + Put16(0);
    } else {
      hide Get16, Put16, PutAll;
      ScanRebuilds(b, i + 2);
      var v, rest := Get16(b, i), Scan(b, i + 2).0;
      PutAllCons(v, rest);
      SplitAt(b, i, i + 2, i + 2 * |rest| + 4);
      Associate(Put16(v), PutAll(rest), Put16(0));
    }
  }

  lemma SplitAt(b: Bytes, i: nat, j: nat, k: nat)
    requires i <= j <= k <= |b|
    ensures b[i..k] == b[i..j] + b[j..k]
  {
  }

  lemma {:induction false} PutAllCons(v: uint16, vs: seq<uint16>)
    ensures PutAll([v] + vs) == Put16(v) + PutAll(vs)
    decreases |vs|
  {
    if vs == [] {
      assert ([v] + vs)[..0] == [];
      assert PutAll([v] + vs) == PutAll([]) + Put16(v);
    } else {
      var all := [v] + vs;
      assert all[..|all| - 1] == [v] + vs[..|vs| - 1];
      PutAllCons(v, vs[..|vs| - 1]);
    }
  }

  /** Conversely, an entry decoded with its terminator is the load option built from the decoded parts. */
  lemma ParsedEntryRebuilds(b: Bytes)
    requires ParseEntry(b).Some? && ParseEntry(b).value.Entry? && ParseEntry(b).value.terminated
    ensures var e := ParseEntry(b).value;
            && ZeroFree(e.units) && e.nodes != [] && AllWellFormed(e.nodes) && |Serialize(e.nodes)| < 0x1_0000
            && b == Build(Get(b[..4]), |Serialize(e.nodes)|, e.units, Serialize(e.nodes) + e.options)
  {
    hide Serialize, Scan, ParsePath, Get16, Put, Put16, PutAll;
    var e := ParseEntry(b).value;
    ScanRebuilds(b, 6);
    var start := 6 + 2 * |e.units| + 2;
    var end := start + Get16(b, 4);
    SerializeParsed(b[start..end]);
    PutGet(b[..4]);
    Put16Get16(b, 4);
    Pieces(b, start, end);
    Associate(b[..4] + b[4..6], PutAll(e.units), Put16(0));
  }

  lemma Pieces(b: Bytes, start: nat, end: nat)
    requires 6 <= start <= end <= |b|
    ensures b == b[..4] + b[4..6] + b[6..start] + (b[start..end] + b[end..])
  {
  }

  lemma Associate(x: Bytes, y: Bytes, z: Bytes)
    ensures x + (y + z) == x + y + z
  {
  }

  // ---------------------------------------------------------------- the text of a file path node

  /** The units of the bytes; of an even number of bytes the last unit is taken to be zero without a look. */
  function Text(b: Bytes): (units: seq<uint16>) {
    if |b| < 2 then []
    else if |b| % 2 == 1 then GetAll(b[..|b| - 1])
    else GetAll(b[..|b| - 2]) + [0]
  }

  method Utf16(b: Bytes) returns (units: seq<uint16>)
    ensures units == Text(b)
    ensures |units| == |b| / 2
    ensures forall k: nat :: 2 * k < |b| - 2 ==> units[k] == b[2 * k] as int + 256 * b[2 * k + 1] as int
    ensures forall k: nat :: |b| - 2 <= 2 * k && k < |units| ==> units[k] == 0
  {
    hide GetAll, Get16;
    var str := new uint16[|b| / 2](_ => 0);
    ghost var read := b[..if |b| < 2 then 0 else if |b| % 2 == 1 then |b| - 1 else |b| - 2];
    var i := 0;
    while i < |b| - 2
      invariant i % 2 == 0 && 0 <= i <= |read|
      invariant forall k: nat :: k < i / 2 ==> str[k] == GetAll(read)[k] == b[2 * k] as int + 256 * b[2 * k + 1] as int
      invariant forall k: nat :: i / 2 <= k < str.Length ==> str[k] == 0
    {
      GetAllAt(read, i / 2);
      assert Get16(b, i) == b[i] as int + 256 * b[i + 1] as int by { UnitValue(b, i); }
      str[i / 2] := Get16(b, i);
      i := i + 2;
    }
    return str[..];
  }

  lemma UnitValue(b: Bytes, i: nat)
    requires i + 2 <= |b|
    ensures Get16(b, i) == b[i] as int + 256 * b[i + 1] as int
  {
  }

  /** Of an odd number of bytes every unit is read. */
  lemma OddText(units: seq<uint16>, last: byte)
    ensures Text(PutAll(units) + [last]) == units
  {
    var b := PutAll(units) + [last];
    GetAllPutAll(units);
    hide GetAll, PutAll;
    assert b[..|b| - 1] == PutAll(units);
    if |b| < 2 {
      assert units == [];
    }
  }

  /** A serialized text comes back whole if and only if its last unit, as the format requires, is zero. */
  lemma TextRoundTripIff(units: seq<uint16>)
    requires units != []
    ensures var n := |units| - 1;
            && Text(PutAll(units)) == units[..n] + [0]
            && (Text(PutAll(units)) == units <==> units[n] == 0)
  {
    hide GetAll, PutAll, Text;
    var n := |units| - 1;
    EvenText(PutAll(units), |units|);
    PutAllButLast(units);
    GetAllPutAll(units[..n]);
    var text := Text(PutAll(units));
    assert text == units[..n] + [0];
    LastUnit(units, n, text);
  }

  lemma EvenText(b: Bytes, m: nat)
    requires |b| == 2 * m && m > 0
    ensures Text(b) == GetAll(b[..|b| - 2]) + [0]
  {
    hide GetAll;
  }

  lemma PutAllButLast(units: seq<uint16>)
    requires units != []
    ensures PutAll(units)[..|PutAll(units)| - 2] == PutAll(units[..|units| - 1])
  {
  }

  lemma LastUnit(units: seq<uint16>, n: nat, text: seq<uint16>)
    requires |units| == n + 1 && text == units[..n] + [0]
    ensures text == units <==> units[n] == 0
  {
    assert units == units[..n] + [units[n]];
    assert text[n] == 0;
  }
}
