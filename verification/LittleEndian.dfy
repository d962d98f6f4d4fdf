/** Little-endian numbers in byte sequences. */
module LittleEndian {
  import opened Files

  type uint16 = x: int | 0 <= x < 0x1_0000

  function Power256(n: nat): nat {
    if n == 0 then 1 else 256 * Power256(n - 1)
  }

  /** The n low bytes of v, least significant first. */
  function Put(v: nat, n: nat): (b: Bytes)
    ensures |b| == n
  {
    if n == 0 then [] else [v % 256] + Put(v / 256, n - 1)
  }

  function Get(b: Bytes): nat {
    if b == [] then 0 else b[0] + 256 * Get(b[1..])
  }

  lemma {:induction false} GetPut(v: nat, n: nat)
    requires v < Power256(n)
    ensures Get(Put(v, n)) == v
  {
    if n > 0 {
      assert Put(v, n)[1..] == Put(v / 256, n - 1);
      GetPut(v / 256, n - 1);
    }
  }

  lemma {:induction false} PutGet(b: Bytes)
    ensures Get(b) < Power256(|b|)
    ensures Put(Get(b), |b|) == b
  {
    if b != [] {
      PutGet(b[1..]);
      assert (b[0] + 256 * Get(b[1..])) / 256 == Get(b[1..]);
      assert (b[0] + 256 * Get(b[1..])) % 256 == b[0];
      assert b == [b[0]] + b[1..];
    }
  }

  function Put16(v: uint16): (b: Bytes)
    ensures |b| == 2
  {
    [v % 256, v / 256]
  }

  function Get16(b: Bytes, i: nat): uint16
    requires i + 2 <= |b|
  {
    var low: int, high: int := b[i], b[i + 1];
    low + 256 * high
  }

  lemma Get16Put16(v: uint16)
    ensures Get16(Put16(v), 0) == v
    ensures Put16(v) == Put(v, 2)
  {
    assert Put(v, 2) == [v % 256] + Put(v / 256, 1);
    assert Put(v / 256, 1) == [v / 256 % 256] + Put(v / 256 / 256, 0);
  }

  lemma Put16Get16(b: Bytes, i: nat)
    requires i + 2 <= |b|
    ensures Put16(Get16(b, i)) == b[i..i + 2]
    ensures Get16(b, i) == Get(b[i..i + 2])
  {
    var c := b[i..i + 2];
    assert c[1..] == [b[i + 1]];
    assert Get(c) == c[0] + 256 * Get(c[1..]);
    assert Get([b[i + 1]]) == b[i + 1] + 256 * Get([]) by { assert [b[i + 1]][1..] == []; }
  }

  /** A list of 16-bit numbers, in order. */
  function PutAll(vs: seq<uint16>): (b: Bytes)
    ensures |b| == 2 * |vs|
  {
    if vs == [] then [] else PutAll(vs[..|vs| - 1]) + Put16(vs[|vs| - 1])
  }

  /** The list in an even number of bytes. */
  function GetAll(b: Bytes): (vs: seq<uint16>)
    requires |b| % 2 == 0
    ensures |vs| == |b| / 2
  {
    if b == [] then [] else GetAll(b[..|b| - 2]) + [Get16(b, |b| - 2)]
  }

  lemma {:induction false} GetAllPutAll(vs: seq<uint16>)
    ensures GetAll(PutAll(vs)) == vs
  {
    if vs != [] {
      var b := PutAll(vs);
      var last := vs[|vs| - 1];
      GetAllPutAll(vs[..|vs| - 1]);
      assert b[..|b| - 2] == PutAll(vs[..|vs| - 1]);
      Get16Put16(last);
      assert Get16(b, |b| - 2) == last;
    }
  }

  lemma {:induction false} PutAllGetAll(b: Bytes)
    requires |b| % 2 == 0
    ensures PutAll(GetAll(b)) == b
  {
    if b != [] {
      var vs := GetAll(b);
      PutAllGetAll(b[..|b| - 2]);
      assert vs[..|vs| - 1] == GetAll(b[..|b| - 2]);
      Put16Get16(b, |b| - 2);
    }
  }

  // ---------------------------------------------------------------- the byte order, spelled out

  lemma {:induction false} GetAllAt(b: Bytes, k: nat)
    requires |b| % 2 == 0 && 2 * k < |b|
    ensures GetAll(b)[k] == b[2 * k] as int + 256 * b[2 * k + 1] as int
  {
    if 2 * k < |b| - 2 {
      GetAllAt(b[..|b| - 2], k);
    }
  }

  lemma {:induction false} PutAllAt(vs: seq<uint16>, k: nat)
    requires k < |vs|
    ensures PutAll(vs)[2 * k] == vs[k] % 256 && PutAll(vs)[2 * k + 1] == vs[k] / 256
    decreases |vs|
  {
    if k < |vs| - 1 {
      PutAllAt(vs[..|vs| - 1], k);
    }
  }

  lemma GetCons(b: Bytes, i: nat)
    requires i < |b|
    ensures Get(b[i..]) == b[i] as int + 256 * Get(b[i + 1..])
  {
    assert b[i..][1..] == b[i + 1..];
  }

  /** Four bytes as a number. */
  lemma FourBytes(b: Bytes)
    requires |b| == 4
    ensures Get(b) == b[0] as int + 0x100 * b[1] as int + 0x1_0000 * b[2] as int + 0x100_0000 * b[3] as int
  {
    GetCons(b, 0);
    GetCons(b, 1);
    GetCons(b, 2);
    GetCons(b, 3);
    assert b[0..] == b && b[4..] == [];
  }

  /** Eight bytes as two numbers of four. */
  lemma EightBytes(b: Bytes)
    requires |b| == 8
    ensures Get(b) == b[0] as int + 0x100 * b[1] as int + 0x1_0000 * b[2] as int + 0x100_0000 * b[3] as int
                      + 0x1_0000_0000 * (b[4] as int + 0x100 * b[5] as int + 0x1_0000 * b[6] as int
                                         + 0x100_0000 * b[7] as int)
  {
    GetCons(b, 0);
    GetCons(b, 1);
    GetCons(b, 2);
    GetCons(b, 3);
    assert b[0..] == b;
    var h := b[4..];
    FourBytes(h);
    assert h[0] == b[4] && h[1] == b[5] && h[2] == b[6] && h[3] == b[7];
  }
}
