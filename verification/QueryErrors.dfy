/** Where the errors of the query parser point. */
module QueryErrors {
  import opened ByteStrings
  import opened QueryTexts
  import opened QueryParsers

  predicate Suffix(t: Bytes, s: Bytes) {
    |t| <= |s| && t == s[|s| - |t|..]
  }

  /** The byte reported is the one at the position reported, or a question mark for a number that is too great. */
  predicate PointsInto(f: Fault, s: Bytes) {
    match f
    case Ended => true
    case BadChar(b, left) => 0 < left <= |s| && s[|s| - left] == b
    case TooGreat(left) => 0 < left <= |s| && IsDigit(s[|s| - left])
    case BadFilter(kw, left) =>
      0 < left <= |s| && KeywordAt(kw, SkipSpace(s[|s| - left..])) && kw !in [SKIP, TAKE, AFTER, BEFORE]
  }

  /** All the letters in front, before a colon. */
  predicate KeywordAt(kw: Bytes, t: Bytes) {
    && kw <= t && (forall i :: 0 <= i < |kw| ==> IsLetter(kw[i]))
    && (|kw| < |t| ==> !IsLetter(t[|kw|])) && NextIs(t[|kw|..], COLON)
  }

  lemma {:induction false} LettersAre(t: Bytes)
    ensures forall i :: 0 <= i < LetterLength(t) ==> IsLetter(t[i])
    ensures LetterLength(t) < |t| ==> !IsLetter(t[LetterLength(t)])
  {
    if t != [] && IsLetter(t[0]) { LettersAre(t[1..]); }
  }

  lemma ColonNext(u: Bytes)
    requires ExpectAt(u, COLON).Done?
    ensures NextIs(u, COLON)
  {
  }

  /** A parse of `s` leaves a part of it, or fails at a place in it. */
  predicate Within<T>(p: Parse<T>, s: Bytes) {
    match p
    case Done(_, rest) => Suffix(rest, s)
    case Failed(f) => PointsInto(f, s)
  }

  lemma SuffixOf(t: Bytes, u: Bytes, s: Bytes)
    requires Suffix(t, u) && Suffix(u, s)
    ensures Suffix(t, s)
  {
  }

  lemma FaultOf(f: Fault, u: Bytes, s: Bytes)
    requires PointsInto(f, u) && Suffix(u, s)
    ensures PointsInto(f, s)
  {
    hide SkipSpace;
    if f.BadFilter? { assert u[|u| - f.left..] == s[|s| - f.left..]; }
  }

  /** A parse of what is left is a parse within the whole. */
  lemma WithinOf<T>(p: Parse<T>, u: Bytes, s: Bytes)
    requires Within(p, u) && Suffix(u, s)
    ensures Within(p, s)
  {
    hide Suffix, PointsInto;
    match p
    case Done(_, rest) => SuffixOf(rest, u, s);
    case Failed(f) => FaultOf(f, u, s);
  }

  lemma DropSuffix(s: Bytes, n: nat)
    requires n <= |s|
    ensures Suffix(s[n..], s)
  {
  }

  lemma SpaceSuffix(s: Bytes)
    ensures Suffix(SkipSpace(s), s)
  {
    hide SpaceLength;
    DropSuffix(s, SpaceLength(s));
  }

  lemma ByteSuffix(s: Bytes, b: Byte)
    ensures Suffix(AfterByte(s, b), s)
  {
    hide SkipSpace, Suffix;
    SpaceSuffix(s);
    if NextIs(s, b) {
      DropSuffix(SkipSpace(s), 1);
      SuffixOf(AfterByte(s, b), SkipSpace(s), s);
    }
  }

  lemma ExpectWithin(s: Bytes, b: Byte)
    ensures Within(ExpectAt(s, b), s)
  {
    hide SkipSpace;
    SpaceSuffix(s);
    var t := SkipSpace(s);
    if t != [] && t[0] == b { DropSuffix(t, 1); }
  }

  lemma FirstPoints(t: Bytes, s: Bytes)
    requires t != [] && Suffix(t, s)
    ensures PointsInto(BadChar(t[0], |t|), s)
  {
  }

  lemma QuotedWithin(u: Bytes)
    ensures Within(QuotedAt(u), u)
  {
    hide QuoteLength;
    if QuoteLength(u) < |u| { DropSuffix(u, QuoteLength(u) + 1); }
  }

  lemma BareWithin(t: Bytes)
    requires t != [] && IsLetter(t[0])
    ensures Within(BareAt(t), t)
  {
    hide WordLength;
    DropSuffix(t, WordLength(t));
  }

  lemma NameWithin(s: Bytes)
    ensures Within(NameAt(s), s)
  {
    hide SkipSpace, QuotedAt, BareAt, Suffix;
    SpaceSuffix(s);
    var t := SkipSpace(s);
    if t != [] && t[0] == QUOTE {
      DropSuffix(t, 1);
      QuotedWithin(t[1..]);
      SuffixOf(t[1..], t, s);
      WithinOf(QuotedAt(t[1..]), t[1..], s);
    } else if t != [] && IsLetter(t[0]) {
      BareWithin(t);
      WithinOf(BareAt(t), t, s);
    } else {
      if t != [] { FirstPoints(t, s); }
    }
  }

  lemma NumberWithin(s: Bytes)
    ensures Within(NumberAt(s), s)
  {
    hide SkipSpace, Decimal;
    SpaceSuffix(s);
    var t := SkipSpace(s);
    DigitsAre(t);
    DropSuffix(t, DigitLength(t));
  }

  lemma FilterWithin(s: Bytes)
    ensures Within(FilterAt(s), s)
  {
    hide SkipSpace, LetterLength, ExpectAt, NumberAt, NameAt, Suffix;
    var t := SkipSpace(s);
    SpaceSuffix(s);
    var u := t[LetterLength(t)..];
    DropSuffix(t, LetterLength(t));
    SuffixOf(u, t, s);
    ExpectWithin(u, COLON);
    WithinOf(ExpectAt(u, COLON), u, s);
    if ExpectAt(u, COLON).Done? {
      var r := ExpectAt(u, COLON).rest;
      LettersAre(t);
      ColonNext(u);
      NumberWithin(r);
      NameWithin(r);
      WithinOf(NumberAt(r), r, s);
      WithinOf(NameAt(r), r, s);
      assert s[|s| - |s|..] == s;
    }
  }

  lemma {:induction false} FiltersWithin(s: Bytes)
    ensures Within(FiltersAt(s), s)
    decreases |s|
  {
    hide SkipSpace, FilterAt, AfterByte, AtEnd, Suffix, PointsInto;
    SpaceSuffix(s);
    var t := SkipSpace(s);
    if !AtEnd(s, CLOSE_PAREN) {
      FilterWithin(t);
      WithinOf(FilterAt(t), t, s);
      if FilterAt(t).Done? {
        var r := FilterAt(t).rest;
        var u := AfterByte(r, COMMA);
        ByteSuffix(r, COMMA);
        SuffixOf(u, r, s);
        FiltersWithin(u);
        WithinOf(FiltersAt(u), u, s);
      }
    }
  }

  lemma FilterListWithin(s: Bytes)
    ensures Within(FilterListAt(s), s)
  {
    hide FiltersAt, AfterByte, NextIs, ExpectAt, Suffix, PointsInto;
    var t := AfterByte(s, OPEN_PAREN);
    ByteSuffix(s, OPEN_PAREN);
    if NextIs(s, OPEN_PAREN) {
      FiltersWithin(t);
      WithinOf(FiltersAt(t), t, s);
      if FiltersAt(t).Done? {
        var u := FiltersAt(t).rest;
        ExpectWithin(u, CLOSE_PAREN);
        WithinOf(ExpectAt(u, CLOSE_PAREN), u, s);
      }
    }
  }

  lemma AliasWithin(s: Bytes)
    ensures Within(AliasAt(s), s)
  {
    hide NameAt, SkipSpace, PointsInto, Suffix;
    SpaceSuffix(s);
    var t := AfterKeyword(s, AS);
    if KeywordNext(s, AS) {
      DropSuffix(SkipSpace(s), |AS|);
      SuffixOf(t, SkipSpace(s), s);
      NameWithin(t);
      WithinOf(NameAt(t), t, s);
    }
  }

  lemma HeadWithin(s: Bytes)
    ensures Within(HeadAt(s), s)
  {
    hide NameAt, AliasAt, FilterListAt, PointsInto, Suffix;
    NameWithin(s);
    if NameAt(s).Done? {
      var r := NameAt(s).rest;
      AliasWithin(r);
      WithinOf(AliasAt(r), r, s);
      if AliasAt(r).Done? {
        var t := AliasAt(r).rest;
        FilterListWithin(t);
        WithinOf(FilterListAt(t), t, s);
      }
    }
  }

  lemma {:induction false} SelectWithin(s: Bytes)
    ensures Within(SelectAt(s), s)
    decreases |s|, 0
  {
    hide HeadAt, SelectsAt, AfterByte, NextIs, ExpectAt, PointsInto, Suffix;
    HeadWithin(s);
    if HeadAt(s).Done? {
      var r := HeadAt(s).rest;
      var t := AfterByte(r, OPEN_BRACE);
      ByteSuffix(r, OPEN_BRACE);
      SuffixOf(t, r, s);
      if NextIs(r, OPEN_BRACE) {
        SelectsWithin(t);
        WithinOf(SelectsAt(t), t, s);
        if SelectsAt(t).Done? {
          var u := SelectsAt(t).rest;
          ExpectWithin(u, CLOSE_BRACE);
          WithinOf(ExpectAt(u, CLOSE_BRACE), u, s);
        }
      }
    }
  }

  lemma {:induction false} SelectsWithin(s: Bytes)
    ensures Within(SelectsAt(s), s)
    decreases |s|, 1
  {
    hide SkipSpace, SelectAt, AfterByte, AtEnd, Suffix, PointsInto;
    SpaceSuffix(s);
    var t := SkipSpace(s);
    if !AtEnd(s, CLOSE_BRACE) {
      SelectWithin(t);
      WithinOf(SelectAt(t), t, s);
      if SelectAt(t).Done? {
        var r := SelectAt(t).rest;
        var u := AfterByte(r, COMMA);
        ByteSuffix(r, COMMA);
        SuffixOf(u, r, s);
        SelectsWithin(u);
        WithinOf(SelectsAt(u), u, s);
      }
    }
  }

  lemma {:induction false} QueryWithin(input: Bytes)
    ensures QueryAt(input).Failed? ==> PointsInto(QueryAt(input).fault, input)
  {
    hide SelectsAt, SkipSpace, ExpectAt, PointsInto, Suffix;
    ExpectWithin(input, OPEN_BRACE);
    if ExpectAt(input, OPEN_BRACE).Done? {
      var r := ExpectAt(input, OPEN_BRACE).rest;
      SelectsWithin(r);
      WithinOf(SelectsAt(r), r, input);
      if SelectsAt(r).Done? {
        var t := SelectsAt(r).rest;
        ExpectWithin(t, CLOSE_BRACE);
        WithinOf(ExpectAt(t, CLOSE_BRACE), t, input);
        if ExpectAt(t, CLOSE_BRACE).Done? {
          var u := ExpectAt(t, CLOSE_BRACE).rest;
          SpaceSuffix(u);
          var v := SkipSpace(u);
          SuffixOf(v, u, input);
          if v != [] { FirstOf(v, input); }
        }
      }
    }
  }

  lemma FirstOf(v: Bytes, s: Bytes)
    requires v != [] && Suffix(v, s)
    ensures PointsInto(BadChar(v[0], |v|), s)
  {
  }

  /**
    * An error that names a character names the one at its position, except that a number too great is reported
    * as a question mark at its first digit; an unknown filter is reported before its keyword.
    */
  lemma ErrorsPoint(input: Bytes)
    requires QueryAt(input).Failed?
    ensures
      match Located(QueryAt(input).fault, |input|)
      case UnexpectedEnd => true
      case UnexpectedChar(b, at) => at < |input| && (input[at] == b || (b == 63 && IsDigit(input[at])))
      case UnknownFilter(kw, at) =>
        at < |input| && KeywordAt(kw, SkipSpace(input[at..])) && kw !in [SKIP, TAKE, AFTER, BEFORE]
  {
    hide QueryAt, SkipSpace;
    QueryWithin(input);
  }
}
