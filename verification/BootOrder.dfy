/** Rewriting the boot order (service/power_ctl.go). */
module BootOrder {
  import opened Options
  import opened Files
  import opened LittleEndian

  /** The index of the last element that satisfies p, -1 if there is none. */
  function LastMatch<T>(s: seq<T>, p: T -> bool): (i: int)
    ensures -1 <= i < |s|
    ensures i >= 0 ==> p(s[i])
    ensures forall j :: i < j < |s| ==> !p(s[j])
  {
    if s == [] then -1
    else if p(s[|s| - 1]) then |s| - 1
    else LastMatch(s[..|s| - 1], p)
  }

  /** Moves the last match to the front. */
  function Promote<T>(s: seq<T>, p: T -> bool): seq<T> {
    var i := LastMatch(s, p);
    if i < 0 then s else [s[i]] + s[..i] + s[i + 1..]
  }

  /** Where a list has a match, promoting takes out the last one and puts it in front. */
  lemma PromotesLast<T>(s: seq<T>, p: T -> bool, i: nat)
    requires i < |s| && p(s[i]) && forall j :: i < j < |s| ==> !p(s[j])
    ensures Promote(s, p) == [s[i]] + s[..i] + s[i + 1..]
  {
    LastMatchAt(s, p, i);
    hide LastMatch;
  }

  function Iterate<T>(s: seq<T>, p: T -> bool, k: nat): seq<T> {
    if k == 0 then s else Promote(Iterate(s, p, k - 1), p)
  }

  /** The elements for which p has the given value, in order. */
  function Select<T>(s: seq<T>, p: T -> bool, wanted: bool): seq<T> {
    if s == [] then []
    else Select(s[..|s| - 1], p, wanted) + (if p(s[|s| - 1]) == wanted then [s[|s| - 1]] else [])
  }

  lemma {:induction false} SelectConcat<T>(a: seq<T>, b: seq<T>, p: T -> bool, w: bool)
    ensures Select(a + b, p, w) == Select(a, p, w) + Select(b, p, w)
    decreases |b|
  {
    if b == [] {
      assert a + b == a;
    } else {
      assert (a + b)[..|a + b| - 1] == a + b[..|b| - 1];
      SelectConcat(a, b[..|b| - 1], p, w);
    }
  }

  lemma {:induction false} SelectUniform<T>(s: seq<T>, p: T -> bool, w: bool)
    requires forall i :: 0 <= i < |s| ==> p(s[i]) == w
    ensures Select(s, p, w) == s && Select(s, p, !w) == []
  {
    if s != [] {
      SelectUniform(s[..|s| - 1], p, w);
    }
  }

  lemma {:induction false} NoneSelected<T>(s: seq<T>, p: T -> bool)
    requires Select(s, p, true) == []
    ensures Select(s, p, false) == s
  {
    if s != [] {
      NoneSelected(s[..|s| - 1], p);
    }
  }

  lemma SelectOne<T>(x: T, p: T -> bool, w: bool)
    ensures Select([x], p, w) == if p(x) == w then [x] else []
  {
    assert [x][..0] == [];
  }

  lemma SelectAround<T>(a: seq<T>, x: T, b: seq<T>, p: T -> bool, w: bool)
    ensures Select(a + [x] + b, p, w) ==
      if p(x) == w then Select(a, p, w) + [x] + Select(b, p, w) else Select(a, p, w) + Select(b, p, w)
    ensures Select(a + b, p, w) == Select(a, p, w) + Select(b, p, w)
  {
    SelectConcat(a + [x], b, p, w);
    SelectConcat(a, [x], p, w);
    SelectConcat(a, b, p, w);
    SelectOne(x, p, w);
  }

  lemma LastIsBehind<T>(front: seq<T>, rest: seq<T>, p: T -> bool)
    requires Select(rest, p, true) != []
    ensures LastMatch(front + rest, p) >= |front|
  {
    var s := front + rest;
    if LastMatch(s, p) < |front| {
      forall j | 0 <= j < |rest| ensures !p(rest[j]) {
        assert rest[j] == s[|front| + j];
      }
      SelectUniform(rest, p, false);
    }
  }

  lemma LastMatchAt<T>(s: seq<T>, p: T -> bool, i: nat)
    requires i < |s| && p(s[i]) && forall j :: i < j < |s| ==> !p(s[j])
    ensures LastMatch(s, p) == i
  {
    hide LastMatch;
  }

  lemma Split<T>(front: seq<T>, a: seq<T>, x: T, b: seq<T>)
    ensures var s, i := front + (a + [x] + b), |front| + |a|;
            |s| == i + 1 + |b| && s[i] == x && s[..i] == front + a && s[i + 1..] == b
  {
  }

  /** One promotion behind a block of already promoted elements, the last match split off. */
  lemma PromoteSplit<T>(front: seq<T>, a: seq<T>, x: T, b: seq<T>, p: T -> bool)
    requires p(x) && forall j :: 0 <= j < |b| ==> !p(b[j])
    ensures Promote(front + (a + [x] + b), p) == [x] + front + (a + b)
  {
    hide LastMatch, Promote;
    var s := front + (a + [x] + b);
    var i := |front| + |a|;
    Split(front, a, x, b);
    forall j | i < j < |s| ensures !p(s[j]) {
      assert s[j] == s[i + 1..][j - i - 1];
    }
    PromotesLast(s, p, i);
    Regroup([x], front, a, b);
  }

  lemma Regroup<T>(x: seq<T>, front: seq<T>, a: seq<T>, b: seq<T>)
    ensures x + (front + a) + b == x + front + (a + b)
  {
  }

  /** A list with a match, split at its last one. */
  lemma SplitAtLast<T>(s: seq<T>, p: T -> bool) returns (a: seq<T>, x: T, b: seq<T>)
    requires Select(s, p, true) != []
    ensures s == a + [x] + b && p(x) && forall j :: 0 <= j < |b| ==> !p(b[j])
  {
    hide Select, LastMatch;
    LastIsBehind([], s, p);
    assert [] + s == s;
    var i := LastMatch(s, p);
    a, x, b := s[..i], s[i], s[i + 1..];
    Whole(s, i);
    forall j | 0 <= j < |b| ensures !p(b[j]) {
      assert b[j] == s[i + 1 + j];
    }
  }

  lemma Whole<T>(s: seq<T>, i: nat)
    requires i < |s|
    ensures s == s[..i] + [s[i]] + s[i + 1..]
  {
  }

  lemma PromoteBehind<T>(front: seq<T>, rest: seq<T>, p: T -> bool) returns (x: T, rest': seq<T>)
    requires Select(rest, p, true) != []
    ensures Promote(front + rest, p) == [x] + front + rest'
    ensures Select(rest, p, true) == Select(rest', p, true) + [x]
    ensures Select(rest', p, false) == Select(rest, p, false)
  {
    hide Select, LastMatch, Promote;
    var a, y, b := SplitAtLast(rest, p);
    x, rest' := y, a + b;
    PromoteSplit(front, a, x, b, p);
    TakenOut(a, x, b, p);
  }

  /** Taking out the last match shortens the matches at their end and keeps the others. */
  lemma TakenOut<T>(a: seq<T>, x: T, b: seq<T>, p: T -> bool)
    requires p(x) && forall j :: 0 <= j < |b| ==> !p(b[j])
    ensures Select(a + [x] + b, p, true) == Select(a + b, p, true) + [x]
    ensures Select(a + b, p, false) == Select(a + [x] + b, p, false)
  {
    hide Select;
    SelectAround(a, x, b, p, true);
    SelectAround(a, x, b, p, false);
    SelectUniform(b, p, false);
    assert Select(a, p, true) + [x] + [] == Select(a, p, true) + [x];
    assert Select(a, p, true) + [] == Select(a, p, true);
  }

  /** After j promotions the last j matches stand in front, in their order. */
  lemma {:induction false} IterateShape<T>(s: seq<T>, p: T -> bool, j: nat) returns (front: seq<T>, rest: seq<T>)
    requires j <= |Select(s, p, true)|
    ensures Iterate(s, p, j) == front + rest && |front| == j
    ensures Select(s, p, true) == Select(rest, p, true) + front
    ensures Select(rest, p, false) == Select(s, p, false)
  {
    if j == 0 {
      front, rest := [], s;
    } else {
      var front', r := IterateShape(s, p, j - 1);
      var x, r' := PromoteBehind(front', r, p);
      front, rest := [x] + front', r';
      assert Select(r', p, true) + [x] + front' == Select(r', p, true) + ([x] + front');
    }
  }

  /**
   Promoting as often as there are matches yields the stable partition: the matches in their original
   relative order, then the others in theirs.
   */
  lemma StablePartition<T>(s: seq<T>, p: T -> bool)
    ensures Iterate(s, p, |Select(s, p, true)|) == Select(s, p, true) + Select(s, p, false)
  {
    hide Select, Iterate;
    var front, rest := IterateShape(s, p, |Select(s, p, true)|);
    assert |Select(rest, p, true)| == 0;
    NoneSelected(rest, p);
  }

  /** From a partitioned list, j promotions rotate the block of matches by j. */
  lemma {:induction false} Rotation<T>(m: seq<T>, n: seq<T>, p: T -> bool, j: nat)
    requires forall i :: 0 <= i < |m| ==> p(m[i])
    requires forall i :: 0 <= i < |n| ==> !p(n[i])
    requires j <= |m|
    ensures Iterate(m + n, p, j) == m[|m| - j..] + (m[..|m| - j] + n)
  {
    if j == 0 {
      assert m[|m|..] == [] && m[..|m|] == m;
    } else {
      Rotation(m, n, p, j - 1);
      var c := |m| - j;
      assert m[..c + 1] + n == m[..c] + [m[c]] + n;
      PromoteSplit(m[c + 1..], m[..c], m[c], n, p);
      assert m[c..] == [m[c]] + m[c + 1..];
    }
  }

  lemma {:induction false} SelectAll<T>(s: seq<T>, p: T -> bool, w: bool)
    ensures forall i :: 0 <= i < |Select(s, p, w)| ==> p(Select(s, p, w)[i]) == w
  {
    if s != [] {
      SelectAll(s[..|s| - 1], p, w);
    }
  }

  lemma {:induction false} IterateAdds<T>(s: seq<T>, p: T -> bool, a: nat, b: nat)
    ensures Iterate(s, p, a + b) == Iterate(Iterate(s, p, a), p, b)
    decreases b
  {
    if b > 0 {
      IterateAdds(s, p, a, b - 1);
    }
  }

  /** From the stable partition on, the order repeats with the number of matches as its period. */
  lemma {:induction false} PartitionRepeats<T>(s: seq<T>, p: T -> bool, rounds: nat)
    ensures var k := |Select(s, p, true)|;
            Iterate(s, p, k + rounds * k) == Select(s, p, true) + Select(s, p, false)
    decreases rounds
  {
    hide Select, Iterate;
    if rounds == 0 {
      StablePartition(s, p);
    } else {
      var m, n := Select(s, p, true), Select(s, p, false);
      PartitionRepeats(s, p, rounds - 1);
      IterateAdds(s, p, |m| + (rounds - 1) * |m|, |m|);
      assert |m| + rounds * |m| == |m| + (rounds - 1) * |m| + |m|;
      FullRotation(s, p);
    }
  }

  lemma FullRotation<T>(s: seq<T>, p: T -> bool)
    ensures var m, n := Select(s, p, true), Select(s, p, false); Iterate(m + n, p, |m|) == m + n
  {
    var m, n := Select(s, p, true), Select(s, p, false);
    SelectAll(s, p, true);
    SelectAll(s, p, false);
    Rotation(m, n, p, |m|);
    assert m[0..] == m && m[..0] == [] && [] + n == n;
  }

  /** No smaller period exists when the matching entries are distinct. */
  lemma PeriodIsLeast<T>(s: seq<T>, p: T -> bool, j: nat)
    requires 0 < j < |Select(s, p, true)|
    requires forall a, b :: 0 <= a < b < |Select(s, p, true)| ==> Select(s, p, true)[a] != Select(s, p, true)[b]
    ensures Iterate(Select(s, p, true) + Select(s, p, false), p, j) != Select(s, p, true) + Select(s, p, false)
  {
    var m, n := Select(s, p, true), Select(s, p, false);
    SelectAll(s, p, true);
    SelectAll(s, p, false);
    Rotation(m, n, p, j);
    assert (m[|m| - j..] + (m[..|m| - j] + n))[0] == m[|m| - j];
  }

  // ---------------------------------------------------------------- the service

  /** The text stands somewhere inside the other. */
  ghost predicate Includes(s: string, sub: string) {
    exists a: string, b: string :: s == a + sub + b
  }

  predicate OccursAt(s: string, sub: string, i: nat) {
    i + |sub| <= |s| && s[i..i + |sub|] == sub
  }

  predicate Contains(s: string, sub: string) {
    exists i :: 0 <= i <= |s| && OccursAt(s, sub, i)
  }

  /** The search finds exactly the texts that stand somewhere inside. */
  lemma ContainsIff(s: string, sub: string)
    ensures Contains(s, sub) <==> Includes(s, sub)
  {
    if Contains(s, sub) {
      var i :| 0 <= i <= |s| && OccursAt(s, sub, i);
      assert s == s[..i] + sub + s[i + |sub|..];
    }
    if Includes(s, sub) {
      var a, b :| s == a + sub + b;
      assert s[|a|..|a| + |sub|] == sub;
      assert OccursAt(s, sub, |a|);
    }
  }

  // ---------------------------------------------------------------- names of boot entries

  function Digit(d: nat): char
    requires d < 16
  {
    "0123456789ABCDEF"[d]
  }

  /** Digits of a number in a base, without leading zeros beyond the given width. */
  function Digits(n: nat, base: nat, width: nat): string
    requires 2 <= base <= 16
    decreases n, width
  {
    if n == 0 && width == 0 then ""
    else Digits(n / base, base, if width > 0 then width - 1 else 0) + [Digit(n % base)]
  }

  /** The name under which the description of a boot number is read, with decimal digits. */
  function NameRead(boot: uint16): string { "Boot" + Digits(boot, 10, 4) }

  /** The name that section 3.1 of the UEFI Specification 2.10 gives the entry, with upper-case hexadecimal digits. */
  function NameStored(boot: uint16): string { "Boot" + Digits(boot, 16, 4) }

  datatype Restart = Restarted | GetFailed | SetFailed | NotFound | RestartFailed

  /** The firmware variable BootOrder; writing it may be refused, and the restart behind it may fail. */
  class PowerCtl {
    const describe: uint16 -> string
    const writable: bool
    const restartable: bool
    var bootOrder: Option<Bytes>
    var restarts: nat

    constructor (describe: uint16 -> string, writable: bool, restartable: bool, bootOrder: Option<Bytes>)
      ensures this.describe == describe && this.writable == writable && this.restartable == restartable
      ensures this.bootOrder == bootOrder && restarts == 0
    {
      this.describe := describe;
      this.writable := writable;
      this.restartable := restartable;
      this.bootOrder := bootOrder;
      this.restarts := 0;
    }

    /** A missing variable and one that ends in half an item are read errors. */
    predicate Readable()
      reads this
    {
      bootOrder.Some? && |bootOrder.value| % 2 == 0
    }

    /** The loop over the boot order; a later match replaces an earlier one. */
    method FindTarget(order: seq<uint16>, search: string) returns (targetIndex: int)
      ensures targetIndex == LastMatch(order, (boot: uint16) => Includes(describe(boot), search))
      ensures -1 <= targetIndex < |order|
      ensures targetIndex >= 0 ==> Includes(describe(order[targetIndex]), search)
      ensures forall i :: targetIndex < i < |order| ==> !Includes(describe(order[i]), search)
    {
      ghost var p := (boot: uint16) => Includes(describe(boot), search);
      targetIndex := -1;
      var i := 0;
      while i < |order|
        invariant 0 <= i <= |order|
        invariant targetIndex == LastMatch(order[..i], p)
      {
        var desc := describe(order[i]);
        ContainsIff(desc, search);
        assert order[..i + 1][..i] == order[..i];
        if Contains(desc, search) {
          targetIndex := i;
        }
        i := i + 1;
      }
      assert order[..i] == order;
    }

    method Restart() returns (ok: bool)
      modifies this`restarts
      ensures ok == restartable
      ensures restarts == old(restarts) + if ok then 1 else 0
    {
      if restartable {
        restarts := restarts + 1;
      }
      return restartable;
    }

    /** The order is rewritten before the restart is tried, so it stays rewritten when that fails. */
    method RestartTo(search: string) returns (result: Restart)
      modifies this
      ensures old(!Readable()) ==> result == GetFailed
      ensures old(Readable()) ==>
        var order := GetAll(old(bootOrder.value));
        var p := (boot: uint16) => Includes(describe(boot), search);
        if Select(order, p, true) == [] then result == NotFound
        else if !writable then result == SetFailed
        else result == (if restartable then Restarted else RestartFailed)
             && Readable() && GetAll(bootOrder.value) == Promote(order, p)
      ensures old(Readable()) && result == NotFound ==>
        forall i :: 0 <= i < |old(bootOrder.value)| / 2 ==>
          !Includes(describe(GetAll(old(bootOrder.value))[i]), search)
      ensures result in {GetFailed, NotFound, SetFailed} ==> bootOrder == old(bootOrder)
      ensures restarts == old(restarts) + if result == Restarted then 1 else 0
    {
      hide LastMatch, Select, GetAll, PutAll, Includes;
      if !Readable() {
        return GetFailed;
      }
      var order := GetAll(bootOrder.value);
      ghost var p := (boot: uint16) => Includes(describe(boot), search);
      var targetIndex := FindTarget(order, search);
      MatchExists(order, p);
      if targetIndex < 0 {
        return NotFound;
      }
      var newOrder := [order[targetIndex]];
      newOrder := newOrder + order[..targetIndex];
      newOrder := newOrder + order[targetIndex + 1..];
      var out := Serialize(newOrder);
      if !writable {
        return SetFailed;
      }
      bootOrder := Some(out);
      GetAllPutAll(newOrder);
      var ok := Restart();
      return if ok then Restarted else RestartFailed;
    }
  }

  lemma MatchExists<T>(s: seq<T>, p: T -> bool)
    ensures LastMatch(s, p) >= 0 <==> Select(s, p, true) != []
  {
    if LastMatch(s, p) < 0 {
      SelectUniform(s, p, false);
    } else {
      var i := LastMatch(s, p);
      if Select(s, p, true) == [] {
        NoneSelected(s, p);
        SelectAll(s, p, false);
      }
    }
  }

  /** The output buffer is filled two bytes at a time. */
  method Serialize(order: seq<uint16>) returns (out: Bytes)
    ensures out == PutAll(order)
    ensures |out| == 2 * |order|
    ensures forall i :: 0 <= i < |order| ==> out[2 * i] == order[i] % 256 && out[2 * i + 1] == order[i] / 256
  {
    var buffer := new byte[2 * |order|];
    var i := 0;
    while i < |order|
      invariant 0 <= i <= |order|
      invariant buffer[..2 * i] == PutAll(order[..i])
    {
      var v := order[i];
      buffer[2 * i] := v % 256;
      buffer[2 * i + 1] := v / 256;
      assert order[..i + 1][..i] == order[..i];
      assert buffer[..2 * (i + 1)] == buffer[..2 * i] + [v % 256, v / 256];
      i := i + 1;
    }
    assert order[..i] == order;
    assert buffer[..2 * i] == buffer[..];
    forall k: nat | k < |order|
      ensures PutAll(order)[2 * k] == order[k] % 256 && PutAll(order)[2 * k + 1] == order[k] / 256
    {
      PutAllAt(order, k);
    }
    return buffer[..];
  }

  lemma DigitInjective(a: nat, b: nat)
    requires a < 16 && b < 16
    ensures Digit(a) == Digit(b) <==> a == b
  {
    var s := "0123456789ABCDEF";
    assert forall i, j :: 0 <= i < j < 16 ==> s[i] != s[j];
  }

  lemma {:induction false} SameDigitsIff(m: nat, n: nat, width: nat)
    requires m >= n
    ensures Digits(m, 10, width) == Digits(n, 16, width) <==> m == n < 10
    decreases m, width
  {
    if m > 0 || width > 0 {
      var w := if width > 0 then width - 1 else 0;
      SmallerQuotient(m, n);
      hide Digit;
      SameDigitsIff(m / 10, n / 16, w);
      DigitInjective(m % 10, n % 16);
      if n > 0 || width > 0 {
        LastDigit(Digits(m / 10, 10, w), Digit(m % 10), Digits(n / 16, 16, w), Digit(n % 16));
      }
    }
  }

  lemma SmallerQuotient(m: nat, n: nat)
    requires m >= n
    ensures m / 10 >= n / 16
    ensures m / 10 == n / 16 && m % 10 == n % 16 ==> m == n < 10
  {
  }

  lemma LastDigit(a: string, x: char, b: string, y: char)
    ensures a + [x] == b + [y] <==> a == b && x == y
  {
    if a + [x] == b + [y] {
      assert a == (a + [x])[..|a + [x]| - 1];
      assert b == (b + [y])[..|b + [y]| - 1];
      assert (a + [x])[|a|] == x && (b + [y])[|b|] == y;
    }
  }

  /** The description that is read is that of the boot number itself if and only if the number is below ten. */
  lemma NameReadIff(boot: uint16)
    ensures NameRead(boot) == NameStored(boot) <==> boot < 10
  {
    SameDigitsIff(boot, boot, 4);
    assert NameRead(boot)[4..] == Digits(boot, 10, 4);
    assert NameStored(boot)[4..] == Digits(boot, 16, 4);
  }

  /** Four digits at least, decimal where the name is read and hexadecimal where it is stored. */
  lemma NamesOfTen()
    ensures NameRead(10) == "Boot0010" && NameStored(10) == "Boot000A"
  {
    DecimalTen();
    HexadecimalTen();
    hide Digits;
  }

  lemma DecimalTen()
    ensures Digits(10, 10, 4) == "0010"
  {
    assert Digits(0, 10, 2) == "00";
    assert Digits(1, 10, 3) == "001";
  }

  lemma HexadecimalTen()
    ensures Digits(10, 16, 4) == "000A"
  {
    assert Digits(0, 16, 2) == "00";
    assert Digits(0, 16, 3) == "000";
  }
}
