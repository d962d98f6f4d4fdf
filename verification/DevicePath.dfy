/**
 Device path nodes (prog_wim/main.go, efiv/efiv.go), in the format of section 10.3 of the UEFI
 Specification 2.10. None stands for a panic. A slice expression may reach beyond the length of a slice into its
 capacity: NewFilePath returns such bytes, the walk fails right behind them.
 */
module DevicePath {
  import opened Options
  import opened Files
  import opened LittleEndian

  /** A node: type, sub-type, and what follows the four header bytes. */
  datatype Node = Node(kind: byte, subKind: byte, data: Bytes) {
    function Length(): nat { 4 + |data| }

    function Serialized(): Bytes
      requires Length() < 0x1_0000
    {
      [kind, subKind] + Put16(Length()) + data
    }
  }

  /** The least length for which the printers of the node's type stay inside it. */
  function Needed(kind: byte, subKind: byte): nat {
    if kind == 1 && subKind == 1 then 6
    else if kind == 2 && subKind == 1 then 12
    else if kind == 3 && subKind == 10 then 36
    else if kind == 4 && subKind == 1 then 42
    else if kind == 5 && subKind == 1 then 8
    else 4
  }

  predicate WellFormed(n: Node) {
    Needed(n.kind, n.subKind) <= n.Length() < 0x1_0000
  }

  predicate AllWellFormed(ns: seq<Node>) {
    forall i :: 0 <= i < |ns| ==> WellFormed(ns[i])
  }

  function Serialize(ns: seq<Node>): Bytes
    requires AllWellFormed(ns)
  {
    if ns == [] then [] else ns[0].Serialized() + Serialize(ns[1..])
  }

  /** The recursive walk: the nodes it visits, in order. */
  function ParsePath(b: Bytes): Option<seq<Node>>
    decreases |b|
  {
    if |b| < 4 then None
    else
      var length: nat := Get16(b, 2);
      if length < 4 || length > |b| || length < Needed(b[0], b[1]) then None
      else
        var node := Node(b[0], b[1], b[4..length]);
        var next := b[length..];
        if next == [] then Some([node])
        else match ParsePath(next)
          case None => None
          case Some(rest) => Some([node] + rest)
  }

  lemma HeaderOf(n: Node, rest: Bytes)
    requires WellFormed(n)
    ensures var b := n.Serialized() + rest;
            && |b| == n.Length() + |rest| && |b| >= 4
            && Get16(b, 2) == n.Length() && b[0] == n.kind && b[1] == n.subKind
            && b[4..n.Length()] == n.data && b[n.Length()..] == rest
  {
    var b := n.Serialized() + rest;
    Get16Put16(n.Length());
    assert b[2] == Put16(n.Length())[0] && b[3] == Put16(n.Length())[1];
  }

  /** One step of the walk over a node followed by more bytes or by none. */
  lemma ParseOne(n: Node, rest: Bytes)
    requires WellFormed(n)
    ensures ParsePath(n.Serialized() + rest) ==
            if rest == [] then Some([n])
            else match ParsePath(rest) case None => None case Some(ns) => Some([n] + ns)
  {
    HeaderOf(n, rest);
    hide Node.Serialized, Get16;
  }

  /** Conversely, bytes on which the walk succeeds start with a well-formed node. */
  lemma FirstNode(b: Bytes) returns (n: Node, rest: Bytes)
    requires ParsePath(b).Some?
    ensures WellFormed(n) && b == n.Serialized() + rest && |rest| < |b|
    ensures rest == [] ==> ParsePath(b).value == [n]
    ensures rest != [] ==> ParsePath(rest).Some? && ParsePath(b).value == [n] + ParsePath(rest).value
  {
    var length: nat := Get16(b, 2);
    n, rest := Node(b[0], b[1], b[4..length]), b[length..];
    Put16Get16(b, 2);
    assert b == [b[0], b[1]] + b[2..4] + b[4..length] + b[length..];
    hide Get16, Put16;
  }

  /** A node alone in its bytes: type, sub-type, low and high byte of the length, data. */
  function Alone(n: Node): Bytes
    requires n.Length() < 0x1_0000
  {
    [n.kind, n.subKind, (4 + |n.data|) % 256, (4 + |n.data|) / 256] + n.data
  }

  /**
   What the printers need: two data bytes for a PCI node, eight for an ACPI node, thirty-two for a vendor-defined
   messaging node, thirty-eight for a hard drive, four for a BIOS boot node, and none for any other.
   */
  lemma LeastDataIff(n: Node)
    requires n.Length() < 0x1_0000
    ensures n.Serialized() == Alone(n)
    ensures ParsePath(Alone(n)) == Some([n]) <==>
      && (n.kind == 1 && n.subKind == 1 ==> |n.data| >= 2)
      && (n.kind == 2 && n.subKind == 1 ==> |n.data| >= 8)
      && (n.kind == 3 && n.subKind == 10 ==> |n.data| >= 32)
      && (n.kind == 4 && n.subKind == 1 ==> |n.data| >= 38)
      && (n.kind == 5 && n.subKind == 1 ==> |n.data| >= 4)
    ensures ParsePath(Alone(n)).Some? <==> WellFormed(n)
  {
    var b := Alone(n);
    assert b[2] as int + 256 * b[3] as int == 4 + |n.data|;
    assert Get16(b, 2) == n.Length();
    assert b[4..n.Length()] == n.data && b[n.Length()..] == [];
    hide Get16;
  }

  /** The walk over a serialized list of well-formed nodes visits exactly those nodes. */
  lemma {:induction false} ParseSerialized(ns: seq<Node>)
    requires ns != [] && AllWellFormed(ns)
    ensures ParsePath(Serialize(ns)) == Some(ns)
    ensures Serialize(ns) != []
    decreases |ns|
  {
    hide ParsePath, Node.Serialized, WellFormed;
    ParseOne(ns[0], Serialize(ns[1..]));
    HeaderOf(ns[0], Serialize(ns[1..]));
    if |ns| == 1 {
      assert Serialize(ns[1..]) == [];
      assert ns == [ns[0]];
    } else {
      ParseSerialized(ns[1..]);
      assert ns == [ns[0]] + ns[1..];
    }
  }

  /** Whatever the walk visits without panicking serializes back to the input. */
  lemma {:induction false} SerializeParsed(b: Bytes)
    requires ParsePath(b).Some?
    ensures var ns := ParsePath(b).value;
            ns != [] && AllWellFormed(ns) && Serialize(ns) == b
    decreases |b|
  {
    hide ParsePath, Node.Serialized, WellFormed;
    var n, rest := FirstNode(b);
    if rest == [] {
      assert [n][1..] == [];
    } else {
      SerializeParsed(rest);
      assert ([n] + ParsePath(rest).value)[1..] == ParsePath(rest).value;
    }
  }

  /** Parsing is the exact inverse of serialization: the walk succeeds on serialized nonempty lists only. */
  lemma ParsePathIff(b: Bytes, ns: seq<Node>)
    ensures ParsePath(b) == Some(ns) <==> ns != [] && AllWellFormed(ns) && Serialize(ns) == b
  {
    if ParsePath(b) == Some(ns) {
      SerializeParsed(b);
    }
    if ns != [] && AllWellFormed(ns) {
      ParseSerialized(ns);
    }
  }

  /**
   A vendor-defined messaging node needs a 16-byte identifier only; the walk panics on every one that
   carries fewer than 16 bytes of data behind it.
   */
  lemma ShortVendorNodePanics(guid: Bytes, data: Bytes)
    requires |guid| == 16 && 4 + |guid| + |data| < 0x1_0000
    ensures ParsePath(Node(3, 10, guid + data).Serialized()).Some? <==> |data| >= 16
  {
    var n := Node(3, 10, guid + data);
    var b := n.Serialized();
    Get16Put16(n.Length());
    assert b[2] == Put16(n.Length())[0] && b[3] == Put16(n.Length())[1];
    assert Get16(b, 2) == n.Length() == |b|;
    assert b[|b|..] == [];
  }

  // ---------------------------------------------------------------- one node as a record

  datatype HardDrive =
    HardDrive(number: nat, start: nat, size: nat, signature: Bytes, format: byte, signatureType: byte)
  {
    ghost predicate Valid() {
      number < Power256(4) && start < Power256(8) && size < Power256(8) && |signature| == 16
    }

    function Data(): Bytes {
      Put(number, 4) + Put(start, 8) + Put(size, 8) + signature + [format, signatureType]
    }
  }

  datatype FilePath = Plain(node: Node) | Drive(header: Node, drive: HardDrive)

  /**
   NewFilePath: the header, and for a hard drive media node the fields at their fixed offsets. The data of the
   header may reach into the spare bytes of the backing array.
   */
  function NewFilePath(b: Bytes, spare: Bytes): Option<FilePath> {
    if |b| < 4 then None
    else
      var length: nat := Get16(b, 2);
      if length < 4 || length > |b| + |spare| then None
      else
        var header := Node(b[0], b[1], (b + spare)[4..length]);
        if header.kind == 4 && header.subKind == 1 then
          if |b| < 42 then None
          else Some(Drive(header, HardDrive(Get(b[4..8]), Get(b[8..16]), Get(b[16..24]), b[24..40], b[40], b[41])))
        else Some(Plain(header))
  }

  function Header(p: FilePath): Node {
    match p
    case Plain(n) => n
    case Drive(h, _) => h
  }

  /** A hard drive node is decoded to the record it was made from, whatever follows it. */
  lemma HardDriveRoundTrip(d: HardDrive, rest: Bytes, spare: Bytes)
    requires d.Valid()
    ensures var n := Node(4, 1, d.Data());
            WellFormed(n) && NewFilePath(n.Serialized() + rest, spare) == Some(Drive(n, d))
  {
    var n := Node(4, 1, d.Data());
    var b := n.Serialized() + rest;
    HeaderOf(n, rest);
    assert (b + spare)[4..n.Length()] == b[4..n.Length()];
    hide Put, Get, Put16, Get16, Node.Serialized;
    Fields(d, b);
    GetPut(d.number, 4);
    GetPut(d.start, 8);
    GetPut(d.size, 8);
  }

  lemma Fields(d: HardDrive, b: Bytes)
    requires |d.signature| == 16 && |b| >= 42 && b[4..42] == d.Data()
    ensures b[4..8] == Put(d.number, 4) && b[8..16] == Put(d.start, 8) && b[16..24] == Put(d.size, 8)
    ensures b[24..40] == d.signature && b[40] == d.format && b[41] == d.signatureType
  {
    var f := b[4..42];
    Inner(b, 0, 4);
    Inner(b, 4, 12);
    Inner(b, 12, 20);
    Inner(b, 20, 36);
    assert b[40] == f[36] && b[41] == f[37];
  }

  /** The fields of a hard drive node, byte by byte. */
  lemma FieldsAt(b: Bytes, spare: Bytes)
    requires |b| >= 42 && b[0] == 4 && b[1] == 1 && b[2] == 42 && b[3] == 0
    ensures var r := NewFilePath(b, spare);
            r.Some? && r.value.Drive? &&
            var d := r.value.drive;
            && d.number == b[4] as int + 0x100 * b[5] as int + 0x1_0000 * b[6] as int + 0x100_0000 * b[7] as int
            && d.start == b[8] as int + 0x100 * b[9] as int + 0x1_0000 * b[10] as int + 0x100_0000 * b[11] as int
                          + 0x1_0000_0000 * (b[12] as int + 0x100 * b[13] as int + 0x1_0000 * b[14] as int
                                             + 0x100_0000 * b[15] as int)
            && d.size == b[16] as int + 0x100 * b[17] as int + 0x1_0000 * b[18] as int + 0x100_0000 * b[19] as int
                         + 0x1_0000_0000 * (b[20] as int + 0x100 * b[21] as int + 0x1_0000 * b[22] as int
                                            + 0x100_0000 * b[23] as int)
            && d.signature == b[24..40] && d.format == b[40] && d.signatureType == b[41]
  {
    assert Get16(b, 2) == 42;
    FourBytes(b[4..8]);
    EightBytes(b[8..16]);
    EightBytes(b[16..24]);
    hide Get, Get16;
  }

  lemma Inner(b: Bytes, i: nat, j: nat)
    requires |b| >= 42 && i <= j <= 38
    ensures b[4..42][i..j] == b[4 + i..4 + j]
  {
    var inner, outer := b[4..42][i..j], b[4 + i..4 + j];
    assert |inner| == |outer|;
    forall k | 0 <= k < |inner| ensures inner[k] == outer[k] {
      assert b[4..42][i + k] == b[4 + i + k];
    }
  }

  /**
   On bytes whose first node the walk accepts, NewFilePath reads the same header. Where the walk fails only
   because the node reaches into the spare bytes, NewFilePath returns it unless it is a short hard drive node.
   */
  lemma HeadersAgree(b: Bytes, spare: Bytes)
    ensures ParsePath(b).Some? ==>
      NewFilePath(b, spare).Some? && Header(NewFilePath(b, spare).value) == ParsePath(b).value[0]
    ensures |b| >= 4 && |b| < Get16(b, 2) <= |b| + |spare| ==>
      && ParsePath(b).None?
      && (NewFilePath(b, spare).Some? <==> !(b[0] == 4 && b[1] == 1 && |b| < 42))
  {
    if ParsePath(b).Some? {
      assert (b + spare)[4..Get16(b, 2)] == b[4..Get16(b, 2)];
    }
  }

  // ---------------------------------------------------------------- byte order of identifiers

  /** Reverses bytes 0-3, 4-5 and 6-7. */
  function Swapped(d: Bytes): Bytes
    requires |d| == 16
  {
    [d[3], d[2], d[1], d[0], d[5], d[4], d[7], d[6]] + d[8..]
  }

  lemma SwappedAt(d: Bytes, e: Bytes)
    requires |d| == |e| == 16
    requires e[0] == d[3] && e[1] == d[2] && e[2] == d[1] && e[3] == d[0]
    requires e[4] == d[5] && e[5] == d[4] && e[6] == d[7] && e[7] == d[6]
    requires forall j :: 8 <= j < 16 ==> e[j] == d[j]
    ensures e == Swapped(d)
  {
    var s := Swapped(d);
    forall j | 0 <= j < 16 ensures e[j] == s[j] {
      assert j >= 8 ==> s[j] == d[8..][j - 8];
    }
  }

  /** The first sixteen bytes, filled up with zeros. */
  function Padded(data: Bytes): (d: Bytes)
    ensures |d| == 16
    ensures forall j :: 0 <= j < 16 ==> d[j] == if j < |data| then data[j] else 0
  {
    if |data| >= 16 then data[..16] else data + seq(16 - |data|, _ => 0)
  }

  method CopyPadded(data: Bytes) returns (ndata: array<byte>)
    ensures fresh(ndata) && ndata[..] == Padded(data)
  {
    ndata := new byte[16](_ => 0);
    var i := 0;
    while i < 16 && i < |data|
      invariant 0 <= i <= 16 && i <= |data|
      invariant forall j :: 0 <= j < 16 ==> ndata[j] == if j < i then data[j] else 0
    {
      ndata[i] := data[i];
      i := i + 1;
    }
  }

  /** Copies into sixteen zero bytes, then rewrites the three leading fields in the other byte order. */
  method EncodeUUID(data: Bytes) returns (r: Option<Bytes>)
    ensures r == if |data| >= 8 then Some(Swapped(Padded(data))) else None
    ensures r.Some? ==>
      && |r.value| == 16
      && r.value[..8] == [data[3], data[2], data[1], data[0], data[5], data[4], data[7], data[6]]
      && forall j :: 8 <= j < 16 ==> r.value[j] == if j < |data| then data[j] else 0
  {
    hide Padded, Swapped;
    var ndata := CopyPadded(data);
    if |data| < 8 {
      return None;
    }
    assert |ndata[..]| == 16;
    ndata[0], ndata[1], ndata[2], ndata[3] := data[3], data[2], data[1], data[0];
    ndata[4], ndata[5] := data[5], data[4];
    ndata[6], ndata[7] := data[7], data[6];
    assert forall j :: 8 <= j < 16 ==> ndata[..][j] == Padded(data)[j];
    SwappedAt(Padded(data), ndata[..]);
    return Some(ndata[..]);
  }

  /** Encoding twice gives the identifier back. */
  lemma SwappedTwice(d: Bytes)
    requires |d| == 16
    ensures Swapped(Swapped(d)) == d
  {
    assert Swapped(d)[8..] == d[8..];
    assert d == [d[0], d[1], d[2], d[3], d[4], d[5], d[6], d[7]] + d[8..];
  }
}
