/** Bytes, byte strings, the lexicographic order Rust gives to slices, and fixed-width integers. */
module ByteStrings {
  type Byte = b: int | 0 <= b < 256
  type Bytes = seq<Byte>
  type U32 = n: nat | n <= 0xffff_ffff

  datatype Option<+T> = None | Some(value: T)
  datatype Result<+T, +E> = Ok(value: T) | Err(error: E)

  //
  // Order
  //

  /** `a < b` as Rust orders `&[u8]`: the first differing byte decides, a proper prefix comes first. */
  predicate Less(a: Bytes, b: Bytes) {
    b != [] && (a == [] || a[0] < b[0] || (a[0] == b[0] && Less(a[1..], b[1..])))
  }

  /** `a` and `b` differ at a position both have, and `a` is smaller there. */
  predicate Before(a: Bytes, b: Bytes) {
    a != [] && b != [] && (a[0] < b[0] || (a[0] == b[0] && Before(a[1..], b[1..])))
  }

  lemma {:induction false} LessIrreflexive(a: Bytes)
    ensures !Less(a, a)
  {
    if a != [] { LessIrreflexive(a[1..]); }
  }

  lemma {:induction false} LessTotal(a: Bytes, b: Bytes)
    ensures Less(a, b) || a == b || Less(b, a)
  {
    if a != [] && b != [] && a[0] == b[0] {
      LessTotal(a[1..], b[1..]);
      if a[1..] == b[1..] {
        assert a == [a[0]] + a[1..] == [b[0]] + b[1..] == b;
      }
    }
  }

  lemma {:induction false} LessTransitive(a: Bytes, b: Bytes, c: Bytes)
    requires Less(a, b) && Less(b, c)
    ensures Less(a, c)
  {
    if a != [] && a[0] == b[0] == c[0] {
      LessTransitive(a[1..], b[1..], c[1..]);
    }
  }

  lemma LessAsymmetric(a: Bytes, b: Bytes)
    requires Less(a, b)
    ensures !Less(b, a) && a != b
  {
    if Less(b, a) { LessTransitive(a, b, a); }
    LessIrreflexive(a);
  }

  /** Either a proper prefix, or different at a shared position. */
  lemma {:induction false} LessCases(a: Bytes, b: Bytes)
    ensures Less(a, b) <==> (a <= b && a != b) || Before(a, b)
  {
    if a != [] && b != [] {
      assert a == [a[0]] + a[1..] && b == [b[0]] + b[1..];
      if a[0] == b[0] {
        LessCases(a[1..], b[1..]);
        assert a <= b <==> a[1..] <= b[1..];
      }
    }
  }

  lemma {:induction false} BeforeExtends(a: Bytes, b: Bytes, x: Bytes, y: Bytes)
    requires Before(a, b)
    ensures Before(a + x, b + y)
  {
    assert (a + x)[0] == a[0] && (b + y)[0] == b[0];
    if a[0] == b[0] {
      BeforeExtends(a[1..], b[1..], x, y);
      assert (a + x)[1..] == a[1..] + x && (b + y)[1..] == b[1..] + y;
    }
  }

  lemma {:induction false} BeforeAfterPrefix(p: Bytes, a: Bytes, b: Bytes)
    ensures Before(p + a, p + b) == Before(a, b)
  {
    if p == [] {
      assert p + a == a && p + b == b;
    } else {
      BeforeAfterPrefix(p[1..], a, b);
      assert (p + a)[1..] == p[1..] + a && (p + b)[1..] == p[1..] + b;
    }
  }

  lemma {:induction false} LessAfterPrefix(p: Bytes, a: Bytes, b: Bytes)
    ensures Less(p + a, p + b) == Less(a, b)
  {
    if p == [] {
      assert p + a == a && p + b == b;
    } else {
      LessAfterPrefix(p[1..], a, b);
      assert (p + a)[1..] == p[1..] + a && (p + b)[1..] == p[1..] + b;
    }
  }

  lemma {:induction false} BeforeIsNoPrefix(a: Bytes, b: Bytes)
    requires Before(a, b)
    ensures !(a <= b) && !(b <= a)
  {
    if a[0] == b[0] {
      BeforeIsNoPrefix(a[1..], b[1..]);
      assert a == [a[0]] + a[1..] && b == [b[0]] + b[1..];
    }
  }

  /** A slice of a slice. */
  lemma SliceWithin(file: Bytes, pos: nat, part: Bytes, i: nat, j: nat)
    requires pos + |part| <= |file| && file[pos..pos + |part|] == part && i <= j <= |part|
    ensures file[pos + i..pos + j] == part[i..j]
  {
    forall k | 0 <= k < j - i ensures file[pos + i..pos + j][k] == part[i..j][k] {
      assert part[i + k] == file[pos..pos + |part|][i + k];
    }
  }

  lemma Assoc(a: Bytes, b: Bytes, c: Bytes)
    ensures (a + b) + c == a + (b + c)
  {
  }

  //
  // Prefix ranges (src/sst/memtable.rs:72-82 and src/sst/read.rs:221-231)
  //

  /** The least string above every string that starts with `p`, if there is one. */
  function Successor(p: Bytes): Option<Bytes> {
    if p == [] then None
    else
      var last := p[|p| - 1];
      if last < 255 then Some(p[..|p| - 1] + [last + 1])
      else Successor(p[..|p| - 1])
  }

  method PrefixSuccessor(prefix: Bytes) returns (r: Option<Bytes>)
    ensures r == Successor(prefix)
  {
    var succ := prefix;
    while succ != []
      invariant Successor(succ) == Successor(prefix)
      decreases |succ|
    {
      var last := succ[|succ| - 1];
      if last < 255 {
        assert succ[|succ| - 1 := last + 1] == succ[..|succ| - 1] + [last + 1];
        succ := succ[|succ| - 1 := last + 1];
        return Some(succ);
      }
      succ := succ[..|succ| - 1];
    }
    r := None;
  }

  predicate InRange(k: Bytes, lo: Bytes, hi: Option<Bytes>) {
    !Less(k, lo) && (hi.None? || Less(k, hi.value))
  }

  /** A string is not below its own prefixes. */
  lemma PrefixNotLess(p: Bytes, k: Bytes)
    requires p <= k
    ensures !Less(k, p)
  {
    LessCases(k, p);
    if k <= p { assert k == p; }
    if Before(k, p) { BeforeIsNoPrefix(k, p); }
  }

  /** One byte after a shared prefix. */
  lemma ByteOrder(t: Bytes, last: Byte)
    ensures Less(t, [last]) <==> t == [] || t[0] < last
    ensures [last] <= t <==> t != [] && t[0] == last
  {
    if t != [] {
      assert t == [t[0]] + t[1..] && [last][1..] == [];
    }
  }

  /** Strings with the prefix `q`, against `q` and one more byte. */
  lemma UnderPrefix(q: Bytes, last: Byte, k: Bytes)
    requires q <= k
    ensures Less(k, q + [last]) <==> |k| == |q| || k[|q|] < last
    ensures q + [last] <= k <==> |k| > |q| && k[|q|] == last
  {
    var t := k[|q|..];
    assert k == q + t;
    LessAfterPrefix(q, t, [last]);
    ByteOrder(t, last);
    PrefixUnderPrefix(q, [last], t);
  }

  lemma PrefixUnderPrefix<T>(p: seq<T>, a: seq<T>, b: seq<T>)
    ensures p + a <= p + b <==> a <= b
  {
    if p + a <= p + b {
      assert a == (p + b)[|p|..|p| + |a|];
    }
  }

  /** A string without the prefix `q` is on the same side of all that have it. */
  lemma OutsidePrefix(q: Bytes, k: Bytes, a: Bytes, b: Bytes)
    requires !(q <= k) && Less(k, q + b)
    ensures Less(k, q + a)
  {
    assert q <= q + a;
    if !Less(k, q + a) { BeforeLeavesPrefix(q + a, k, q, b); }
  }

  /** The half-open range from a prefix to its successor holds exactly the strings with that prefix. */
  lemma {:induction false} PrefixRange(p: Bytes, k: Bytes)
    ensures p <= k <==> InRange(k, p, Successor(p))
  {
    hide Less;
    if p <= k { PrefixNotLess(p, k); }
    if p != [] {
      var q, last := p[..|p| - 1], p[|p| - 1];
      assert p == q + [last];
      if q <= k {
        UnderPrefix(q, last, k);
        if last < 255 { UnderPrefix(q, last + 1, k); }
      } else if last < 255 && Less(k, q + [last + 1]) {
        OutsidePrefix(q, k, [last], [last + 1]);
      }
      if last == 255 {
        PrefixRange(q, k);
        if !(q <= k) && Less(k, q) {
          assert q + [] == q;
          OutsidePrefix(q, k, [last], []);
        }
      }
    }
  }

  /** Nothing that lacks the prefix `q` lies between two strings that have it. */
  lemma {:induction false} BeforeLeavesPrefix(p: Bytes, k: Bytes, q: Bytes, tail: Bytes)
    requires q <= p && !Less(k, p) && Less(k, q + tail)
    ensures q <= k
  {
    if q != [] {
      assert (q + tail)[1..] == q[1..] + tail;
      BeforeLeavesPrefix(p[1..], k[1..], q[1..], tail);
      assert k == [k[0]] + k[1..] && q == [q[0]] + q[1..];
    }
  }

  //
  // Fixed-width integers
  //

  /** Number of significant bytes of `x`; `x` is a value of an unsigned integer of `w` bytes when `Size(x) <= w`. */
  function Size(x: nat): nat {
    if x == 0 then 0 else 1 + Size(x / 256)
  }

  function Pow256(n: nat): (p: nat)
    ensures p >= 1
  {
    if n == 0 then 1 else 256 * Pow256(n - 1)
  }

  lemma {:induction false} SizeBound(x: nat, n: nat)
    ensures Size(x) <= n <==> x < Pow256(n)
  {
    if x > 0 && n > 0 { SizeBound(x / 256, n - 1); }
  }

  lemma {:induction false} SizeMonotone(x: nat, y: nat)
    requires x <= y
    ensures Size(x) <= Size(y)
  {
    if x > 0 { SizeMonotone(x / 256, y / 256); }
  }

  lemma FixedWidths(x: nat)
    ensures Size(x) <= 2 <==> x < 0x1_0000
    ensures Size(x) <= 4 <==> x < 0x1_0000_0000
    ensures Size(x) <= 8 <==> x < 0x1_0000_0000_0000_0000
  {
    SizeBound(x, 2);
    SizeBound(x, 4);
    SizeBound(x, 8);
    assert Pow256(4) == 256 * (256 * Pow256(2));
    assert Pow256(6) == 256 * (256 * Pow256(4));
    assert Pow256(8) == 256 * (256 * Pow256(6));
  }

  /** The `n` low-order bytes of `x`, least significant first: what `(x as uN).to_le_bytes()` gives. */
  function LE(x: nat, n: nat): (bs: Bytes)
    ensures |bs| == n
  {
    if n == 0 then [] else [x % 256] + LE(x / 256, n - 1)
  }

  function FromLE(bs: Bytes): nat {
    if bs == [] then 0 else bs[0] + 256 * FromLE(bs[1..])
  }

  /** The `n` low-order bytes of `x`, most significant first. */
  function BE(x: nat, n: nat): (bs: Bytes)
    ensures |bs| == n
  {
    if n == 0 then [] else BE(x / 256, n - 1) + [x % 256]
  }

  function FromBE(bs: Bytes): nat {
    if bs == [] then 0 else 256 * FromBE(bs[..|bs| - 1]) + bs[|bs| - 1]
  }

  lemma {:induction false} LERoundTrip(x: nat, n: nat)
    requires Size(x) <= n
    ensures FromLE(LE(x, n)) == x
  {
    if n > 0 { LERoundTrip(x / 256, n - 1); }
  }

  lemma Times(p: nat, a: nat, b: nat)
    requires a <= b
    ensures p * a <= p * b
  {
  }

  lemma Quotient(p: nat, q: nat, r: nat)
    requires r < p
    ensures (p * q + r) / p == q
  {
    var x := p * q + r;
    var d := x / p;
    assert p * d <= x < p * d + p by { assert x == p * d + x % p; }
    assert p * (d + 1) == p * d + p && p * (q + 1) == p * q + p;
    if d < q {
      Times(p, d + 1, q);
    } else if q < d {
      Times(p, q + 1, d);
    }
  }

  function Div(x: nat, n: nat): nat
    requires n > 0
  {
    x / n
  }

  lemma DivIs(x: nat, n: nat, q: nat, r: nat)
    requires x == n * q + r && r < n
    ensures Div(x, n) == q
  {
    Quotient(n, q, r);
  }

  lemma DivMod(x: nat, n: nat) returns (r: nat)
    requires n > 0
    ensures x == n * Div(x, n) + r && r < n
  {
    r := x % n;
  }

  lemma Regroup(k: nat, p: nat, n: nat, q: nat)
    requires n == k * p
    ensures n * q == k * (p * q)
  {
    assert (k * p) * q == k * (p * q);
  }

  lemma Remainder(k: nat, p: nat, s: nat, r: nat)
    requires s < p && r < k
    ensures k * s + r < k * p
  {
    assert k * (s + 1) == k * s + k;
    Times(k, s + 1, p);
  }

  lemma Spread(k: nat, y: nat, s: nat)
    ensures k * (y + s) == k * y + k * s
  {
  }

  lemma DivideTwice(x: nat, k: nat, p: nat, n: nat)
    requires k > 0 && p > 0 && n == k * p && n > 0
    ensures Div(Div(x, k), p) == Div(x, n)
  {
    hide Div;
    var a := Div(x, k);
    var r := DivMod(x, k);
    var q := Div(a, p);
    var s := DivMod(a, p);
    Regroup(k, p, n, q);
    Spread(k, p * q, s);
    Remainder(k, p, s, r);
    DivIs(x, n, q, k * s + r);
  }

  /** Byte `i` counts 256 to the power `i`, from the front or from the back. */
  lemma {:induction false} ByteOf(x: nat, n: nat, i: nat)
    requires i < n
    ensures LE(x, n)[i] == (x / Pow256(i)) % 256
    ensures BE(x, n)[n - 1 - i] == (x / Pow256(i)) % 256
  {
    if i > 0 {
      ByteOf(x / 256, n - 1, i - 1);
      DivideTwice(x, 256, Pow256(i - 1), Pow256(i));
    }
  }

  lemma Scale(b: nat, p: nat, x: nat)
    ensures 256 * (b * p + x) == b * (256 * p) + 256 * x
  {
  }

  /** What a byte adds to the number: at the end, low byte first, or at the front, high byte first. */
  lemma {:induction false} HighLE(bs: Bytes, b: Byte)
    ensures FromLE(bs + [b]) == FromLE(bs) + b * Pow256(|bs|)
  {
    if bs == [] {
      assert bs + [b] == [b];
      assert [b][1..] == [];
    } else {
      assert (bs + [b])[1..] == bs[1..] + [b];
      HighLE(bs[1..], b);
      Scale(b, Pow256(|bs| - 1), FromLE(bs[1..]));
    }
  }

  lemma {:induction false} HighBE(bs: Bytes, b: Byte)
    ensures FromBE([b] + bs) == b * Pow256(|bs|) + FromBE(bs)
  {
    if bs == [] {
      assert [b] + bs == [b];
      assert [b][..0] == [];
    } else {
      var init := bs[..|bs| - 1];
      assert ([b] + bs)[..|bs|] == [b] + init;
      HighBE(init, b);
      Scale(b, Pow256(|bs| - 1), FromBE(init));
    }
  }

  lemma FromTwo(a: Byte, b: Byte)
    ensures FromLE([a, b]) == a + 256 * b
  {
    assert [a, b][1..] == [b] && [b][1..] == [];
    assert FromLE([b]) == b;
  }

  /** A u16 field keeps the low 16 bits. */
  lemma U16Field(x: nat)
    ensures FromLE(LE(x, 2)) == x % 0x1_0000
  {
    var a, b := x / 0x1_0000, x % 0x1_0000;
    assert x == 256 * (256 * a + b / 256) + b % 256;
    assert x / 256 == 256 * a + b / 256 && x % 256 == b % 256;
    assert (x / 256) % 256 == b / 256;
    assert LE(x, 2) == [x % 256, (x / 256) % 256];
    assert LE(x, 2)[1..] == [b / 256] && [b / 256][1..] == [];
    assert FromLE([b / 256]) == b / 256;
  }

  lemma {:induction false} BERoundTrip(x: nat, n: nat)
    requires Size(x) <= n
    ensures FromBE(BE(x, n)) == x
  {
    if n > 0 { BERoundTrip(x / 256, n - 1); }
  }

  /** As many bytes hold no greater number. */
  lemma {:induction false} FromBESize(bs: Bytes)
    ensures Size(FromBE(bs)) <= |bs|
  {
    if bs != [] { FromBESize(bs[..|bs| - 1]); }
  }

  /** Big-endian bytes of one width order as the numbers do. */
  lemma {:induction false} BEOrder(x: nat, y: nat, n: nat)
    requires x < y && Size(y) <= n
    ensures Before(BE(x, n), BE(y, n))
  {
    if x / 256 < y / 256 {
      BEOrder(x / 256, y / 256, n - 1);
      BeforeExtends(BE(x / 256, n - 1), BE(y / 256, n - 1), [x % 256], [y % 256]);
    } else {
      BeforeAfterPrefix(BE(x / 256, n - 1), [x % 256], [y % 256]);
    }
  }
}
