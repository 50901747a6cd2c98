/** Length-prefixed variable integers (src/varint.rs), for the widths 2, 4, 8 and 16 bytes. */
module VarInts {
  import opened ByteStrings

  predicate IsWidth(w: nat) { w == 2 || w == 4 || w == 8 || w == 16 }

  /** The bytes `write` appends. */
  function Encode(x: nat): Bytes {
    [Size(x) % 256] + BE(x, Size(x))
  }

  /** The slices of `read_from` stay in bounds. */
  predicate Complete(bytes: Bytes, w: nat) {
    bytes != [] && bytes[0] <= w ==> 1 + bytes[0] <= |bytes|
  }

  /** What `read_from` returns at width `w`: the value and the number of bytes it took. */
  function Decode(bytes: Bytes, w: nat): (r: Option<(nat, nat)>)
    requires Complete(bytes, w)
    ensures r.Some? ==> 1 <= r.value.1 <= |bytes|
  {
    if bytes == [] || bytes[0] > w then None
    else Some((FromBE(bytes[1..1 + bytes[0]]), (bytes[0] as nat) + 1))
  }

  method Write(x: nat, w: nat) returns (out: Bytes)
    requires IsWidth(w) && Size(x) <= w
    ensures out == Encode(x)
  {
    hide Remaining, Size, BE, Encode;
    var size := w;
    var be := BE(x, w);
    var i := 0;
    NothingStripped(x, w);
    while i < |be|
      invariant 0 <= i <= w == |be| && size == w - i
      invariant Remaining(be[i..], x, size)
    {
      StripZeroAt(be, i, x);
      if be[i] == 0 {
        size := size - 1;
      } else {
        break;
      }
      i := i + 1;
    }
    if i < |be| { StripZeroAt(be, i, x); }
    EncodingOf(be[i..], x, size);
    assert w - size == i;
    out := [size] + be[w - size..];
  }

  ghost predicate Remaining(tail: Bytes, x: nat, size: nat) {
    Size(x) <= size && tail == BE(x, size)
  }

  lemma StripZero(tail: Bytes, x: nat, size: nat)
    requires size > 0 && Remaining(tail, x, size)
    ensures tail[0] == 0 <==> Size(x) <= size - 1
    ensures tail[0] == 0 ==> Remaining(tail[1..], x, size - 1)
  {
    LeadingByte(x, size);
  }

  /** The same on the whole buffer, past `i` zeros. */
  lemma StripZeroAt(be: Bytes, i: nat, x: nat)
    requires i < |be| && Remaining(be[i..], x, |be| - i)
    ensures be[i] == 0 <==> Size(x) <= |be| - i - 1
    ensures be[i] == 0 ==> Remaining(be[i + 1..], x, |be| - i - 1)
  {
    hide Remaining, Size;
    StripZero(be[i..], x, |be| - i);
    assert be[i..][1..] == be[i + 1..];
  }

  lemma NothingStripped(x: nat, w: nat)
    requires Size(x) <= w
    ensures Remaining(BE(x, w)[0..], x, w)
  {
  }

  lemma RemainingSize(tail: Bytes, x: nat, size: nat)
    requires Remaining(tail, x, size)
    ensures Size(x) <= size
  {
  }

  lemma EncodingOf(tail: Bytes, x: nat, size: nat)
    requires size <= 16 && Remaining(tail, x, size) && (size > 0 ==> Size(x) > size - 1)
    ensures Encode(x) == [size] + tail
  {
  }

  method ReadFrom(bytes: Bytes, w: nat) returns (r: Option<(nat, nat)>)
    requires IsWidth(w) && Complete(bytes, w)
    ensures r == Decode(bytes, w)
  {
    if bytes == [] {
      return None;
    }
    var byteCount := bytes[0];
    if byteCount > w {
      return None;
    }
    var buf := new Byte[w](_ => 0);
    forall i | 0 <= i < byteCount {
      buf[w - byteCount + i] := bytes[1 + i];
    }
    var data := bytes[1..1 + byteCount];
    assert buf[..] == seq(w - byteCount, _ => 0) + data;
    PaddingIsNothing(data, w - byteCount);
    r := Some((FromBE(buf[..]), byteCount + 1));
  }

  lemma {:induction false} LeadingByte(x: nat, n: nat)
    requires n > 0 && Size(x) <= n
    ensures BE(x, n)[1..] == BE(x, n - 1)
    ensures BE(x, n)[0] == 0 <==> Size(x) <= n - 1
  {
    if n > 1 { LeadingByte(x / 256, n - 1); }
  }

  lemma {:induction false} PaddingIsNothing(bs: Bytes, n: nat)
    ensures FromBE(seq(n, _ => 0) + bs) == FromBE(bs)
  {
    var padded: Bytes := seq(n, _ => 0) + bs;
    if bs != [] {
      assert padded[..|padded| - 1] == seq(n, _ => 0) + bs[..|bs| - 1];
      PaddingIsNothing(bs[..|bs| - 1], n);
    } else if n > 0 {
      assert padded[..|padded| - 1] == seq(n - 1, _ => 0) + bs;
      PaddingIsNothing(bs, n - 1);
    }
  }

  /** What follows a number does not matter. */
  lemma DecodeExtends(bytes: Bytes, rest: Bytes, w: nat)
    requires bytes != [] && Complete(bytes, w)
    ensures Complete(bytes + rest, w) && Decode(bytes + rest, w) == Decode(bytes, w)
  {
    if bytes[0] <= w {
      assert (bytes + rest)[1..1 + bytes[0]] == bytes[1..1 + bytes[0]];
    }
  }

  lemma DecodeShape(n: Byte, body: Bytes, rest: Bytes, w: nat)
    requires |body| == n
    ensures Complete([n] + body + rest, w)
    ensures Decode([n] + body + rest, w) == if n <= w then Some((FromBE(body), n + 1)) else None
  {
    var bytes := [n] + body + rest;
    assert bytes[1..1 + n] == body;
  }

  /**
    * Reading what was written, whatever follows it, gives the value and its exact length; a width too
    * small for the value gives nothing.
    */
  lemma RoundTrip(x: nat, w: nat, rest: Bytes)
    requires IsWidth(w) && Size(x) <= 16
    ensures Complete(Encode(x) + rest, w)
    ensures Decode(Encode(x) + rest, w) == if Size(x) <= w then Some((x, |Encode(x)|)) else None
  {
    hide *;
    EncodingShape(x);
    BERoundTrip(x, Size(x));
    DecodeShape(Size(x), BE(x, Size(x)), rest, w);
  }

  lemma EncodingShape(x: nat)
    requires Size(x) <= 16
    ensures Encode(x) == [Size(x)] + BE(x, Size(x))
  {
    hide Size, BE;
  }

  lemma FirstByteDecides(a: Byte, b: Byte, x: Bytes, y: Bytes)
    requires a < b
    ensures Before([a] + x, [b] + y)
  {
  }

  /** Byte order is numeric order, already decided inside the shorter encoding: no encoding is a prefix of another. */
  lemma Order(x: nat, y: nat)
    requires x < y && Size(y) <= 16
    ensures Before(Encode(x), Encode(y))
  {
    var n, m := Size(x), Size(y);
    SizeMonotone(x, y);
    assert n == m ==> Before(BE(x, n), BE(y, m)) by {
      if n == m { BEOrder(x, y, n); }
    }
    hide *;
    EncodingShape(x);
    EncodingShape(y);
    if n == m {
      BeforeAfterPrefix([n], BE(x, n), BE(y, n));
    } else {
      FirstByteDecides(n, m, BE(x, n), BE(y, m));
    }
  }

  lemma OrderIff(x: nat, y: nat)
    requires Size(x) <= 16 && Size(y) <= 16
    ensures Less(Encode(x), Encode(y)) <==> x < y
    ensures Encode(x) <= Encode(y) ==> x == y
  {
    LessIrreflexive(Encode(x));
    LessCases(Encode(x), Encode(y));
    LessCases(Encode(y), Encode(x));
    if x < y {
      Order(x, y);
      BeforeIsNoPrefix(Encode(x), Encode(y));
    }
    if y < x {
      Order(y, x);
      BeforeIsNoPrefix(Encode(y), Encode(x));
      LessAsymmetric(Encode(y), Encode(x));
    }
  }

  /** A value of at most four bytes starts with a byte of 0 to 4, and with 0 exactly when it is 0. */
  lemma FirstByte(x: nat, w: nat)
    requires IsWidth(w) && Size(x) <= w
    ensures Encode(x)[0] <= w
    ensures Encode(x)[0] == 0 <==> x == 0
    ensures x == 0 ==> Encode(x) == [0]
  {
  }

  /** No number is read from fewer bytes than those written for it. */
  lemma Shortest(bytes: Bytes, w: nat, x: nat, n: nat)
    requires Complete(bytes, w) && Decode(bytes, w) == Some((x, n))
    ensures |Encode(x)| <= n
  {
    FromBESize(bytes[1..1 + bytes[0]]);
  }
}
