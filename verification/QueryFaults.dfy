/**
  * When the query parser reports which error: an error at a character is the first point at which no continuation is
  * read any further, and the end is reported when what is missing is more input.
  */
module QueryFaults {
  import opened ByteStrings
  import opened QueryTexts
  import opened QueryParsers
  import opened QueryErrors
  import opened QueryReading

  //
  // What a parse depends on. The input is split in two: `x`, and an end that is exchanged, `y` for `z`.
  //

  /** The fault is decided before the last `n` bytes; a number or a keyword may be decided by all bytes only. */
  predicate Inside(f: Fault, n: nat) {
    match f
    case BadChar(_, left) => left > n
    case TooGreat(left) => n == 0
    case BadFilter(_, left) => n == 0
    case Ended => false
  }

  function Shift(left: nat, n: nat, m: nat): nat { if left >= n then left - n + m else left }

  /** The same fault, when the last `n` bytes are exchanged for `m` others. */
  function Moved(f: Fault, n: nat, m: nat): Fault {
    match f
    case BadChar(b, left) => BadChar(b, Shift(left, n, m))
    case TooGreat(left) => TooGreat(Shift(left, n, m))
    case BadFilter(kw, left) => BadFilter(kw, Shift(left, n, m))
    case Ended => Ended
  }

  /** The same parse with another end: `rest` ends in `y`. */
  ghost predicate Same<T(!new)>(p: Parse<T>, q: Parse<T>, y: Bytes, z: Bytes) {
    && p.Done? && q.Done? && q.value == p.value
    && exists r :: p.rest == r + y && q.rest == r + z
  }

  ghost predicate SameFault<T(!new)>(p: Parse<T>, q: Parse<T>, y: Bytes, z: Bytes) {
    p.Failed? && Inside(p.fault, |y|) ==> q == Failed(Moved(p.fault, |y|, |z|))
  }

  /** A parse that stops inside `x`, and its fault if it is inside `x`, do not depend on the end. */
  ghost predicate Local<T(!new)>(p: Parse<T>, q: Parse<T>, y: Bytes, z: Bytes) {
    SameFault(p, q, y, z) && (p.Done? && |p.rest| > |y| ==> Same(p, q, y, z))
  }

  lemma {:induction false} SpaceLocal(x: Bytes, y: Bytes)
    ensures SkipSpace(x + y) == if SkipSpace(x) != [] then SkipSpace(x) + y else SkipSpace(y)
  {
    if x == [] {
      assert x + y == y;
    } else if IsSpace(x[0]) {
      assert (x + y)[1..] == x[1..] + y;
      SpaceLocal(x[1..], y);
      assert SkipSpace(x) == SkipSpace(x[1..]);
      assert SkipSpace(x + y) == SkipSpace(x[1..] + y);
    }
  }

  lemma {:induction false} RunsLocal(x: Bytes, y: Bytes)
    ensures WordLength(x) < |x| ==> WordLength(x + y) == WordLength(x)
    ensures WordLength(x) == |x| ==> WordLength(x + y) >= |x|
    ensures DigitLength(x) < |x| ==> DigitLength(x + y) == DigitLength(x)
    ensures DigitLength(x) == |x| ==> DigitLength(x + y) >= |x|
    ensures LetterLength(x) < |x| ==> LetterLength(x + y) == LetterLength(x)
    ensures LetterLength(x) == |x| ==> LetterLength(x + y) >= |x|
    ensures QuoteLength(x) < |x| ==> QuoteLength(x + y) == QuoteLength(x)
    ensures QuoteLength(x) == |x| ==> QuoteLength(x + y) >= |x|
  {
    if x != [] {
      assert (x + y)[1..] == x[1..] + y;
      RunsLocal(x[1..], y);
    }
  }

  /** Nothing is inside `x` when the parse is one of what comes after. */
  lemma NotInside<T(!new)>(p: Parse<T>, q: Parse<T>, s: Bytes, y: Bytes, z: Bytes)
    requires Within(p, s) && |s| <= |y|
    ensures Local(p, q, y, z)
  {
  }

  lemma Rest(r: Bytes, y: Bytes, n: nat)
    requires n <= |r|
    ensures (r + y)[n..] == r[n..] + y && (r + y)[..n] == r[..n]
  {
  }

  lemma SameAt<T(!new)>(v: T, r: Bytes, y: Bytes, z: Bytes)
    ensures Same(Done(v, r + y), Done(v, r + z), y, z)
  {
    assert Parse.Done(v, r + y).rest == r + y && Parse.Done(v, r + z).rest == r + z;
  }

  lemma ExpectLocal(x: Bytes, b: Byte, y: Bytes, z: Bytes)
    ensures SameFault(ExpectAt(x + y, b), ExpectAt(x + z, b), y, z)
    ensures ExpectAt(x + y, b).Done? && |ExpectAt(x + y, b).rest| >= |y| ==>
      Same(ExpectAt(x + y, b), ExpectAt(x + z, b), y, z)
  {
    hide SkipSpace;
    SpaceLocal(x, y);
    SpaceLocal(x, z);
    SpaceShorter(y);
    var t := SkipSpace(x);
    if t != [] {
      Rest(t, y, 1);
      Rest(t, z, 1);
      SameAt((), t[1..], y, z);
    }
  }

  lemma SpaceShorter(y: Bytes)
    ensures |SkipSpace(y)| <= |y|
  {
  }

  lemma QuotedLocal(u: Bytes, y: Bytes, z: Bytes)
    ensures Local(QuotedAt(u + y), QuotedAt(u + z), y, z)
  {
    hide QuoteLength;
    RunsLocal(u, y);
    RunsLocal(u, z);
    var n := QuoteLength(u);
    if n < |u| {
      Rest(u, y, n);
      Rest(u, z, n);
      Rest(u, y, n + 1);
      Rest(u, z, n + 1);
      SameAt(u[..n], u[n + 1..], y, z);
    }
  }

  lemma BareLocal(t: Bytes, y: Bytes, z: Bytes)
    requires StartsWord(t)
    ensures StartsWord(t + y) && StartsWord(t + z) && Local(BareAt(t + y), BareAt(t + z), y, z)
  {
    hide WordLength;
    RunsLocal(t, y);
    RunsLocal(t, z);
    var n := WordLength(t);
    if n < |t| {
      Rest(t, y, n);
      Rest(t, z, n);
      SameAt(t[..n], t[n..], y, z);
    }
  }

  lemma NameLocal(x: Bytes, y: Bytes, z: Bytes)
    ensures Local(NameAt(x + y), NameAt(x + z), y, z)
  {
    hide SkipSpace, QuotedAt, BareAt, Same;
    SpaceLocal(x, y);
    SpaceLocal(x, z);
    var t := SkipSpace(x);
    if t == [] {
      NameWithin(y);
      NameAfterSpace(x + y);
      NameAfterSpace(y);
      NotInside(NameAt(x + y), NameAt(x + z), y, y, z);
    } else if t[0] == QUOTE {
      Rest(t, y, 1);
      Rest(t, z, 1);
      QuotedLocal(t[1..], y, z);
    } else if IsLetter(t[0]) {
      BareLocal(t, y, z);
    }
  }

  lemma {:induction false} DecimalPrefix(d: Bytes, n: nat)
    requires AllDigits(d) && n <= |d|
    ensures AllDigits(d[..n]) && Decimal(d[..n]) <= Decimal(d)
    decreases |d|
  {
    if n < |d| {
      var init := d[..|d| - 1];
      DecimalPrefix(init, n);
      assert init[..n] == d[..n];
    } else {
      assert d[..n] == d;
    }
  }

  /** A number that is too great stays too great. */
  lemma StillTooGreat(t: Bytes, z: Bytes)
    requires DigitLength(t) > 0
    ensures AllDigits(t[..DigitLength(t)])
    ensures Decimal(t[..DigitLength(t)]) >= USIZE_LIMIT ==>
      DigitLength(t + z) > 0 && AllDigits((t + z)[..DigitLength(t + z)])
      && Decimal((t + z)[..DigitLength(t + z)]) >= USIZE_LIMIT
  {
    hide DigitLength, Decimal;
    DigitsAre(t);
    DigitsAre(t + z);
    RunsLocal(t, z);
    var n, m := DigitLength(t), DigitLength(t + z);
    DecimalPrefix((t + z)[..m], n);
    assert (t + z)[..m][..n] == t[..n];
  }

  /** The digits end inside `t`. */
  lemma DigitsLocal(t: Bytes, y: Bytes, z: Bytes)
    requires t != [] && SkipSpace(t) == t && DigitLength(t) < |t|
    ensures Local(NumberAt(t + y), NumberAt(t + z), y, z)
  {
    hide SkipSpace, DigitLength, Decimal, Same, Inside, Moved;
    var n := DigitLength(t);
    DigitsSame(t, y);
    DigitsSame(t, z);
    DigitsAre(t);
    if n == 0 {
      FirstMoved(t[0], t, y, z);
    } else if Decimal(t[..n]) < USIZE_LIMIT {
      SameAt(Decimal(t[..n]), t[n..], y, z);
    } else {
      GreatMoved(t, y, z);
    }
  }

  lemma NumberIs(s: Bytes, t: Bytes, n: nat)
    requires n <= |t| && AllDigits(t[..n]) && t != [] && n == DigitLength(t) && t == SkipSpace(s)
    ensures
      NumberAt(s) ==
      if n == 0 then Failed(BadChar(t[0], |t|))
      else if Decimal(t[..n]) < USIZE_LIMIT then Done(Decimal(t[..n]), t[n..])
      else Failed(TooGreat(|t|))
  {
    hide SkipSpace, DigitLength, Decimal;
    DigitsAre(t);
  }

  lemma DigitsSame(t: Bytes, y: Bytes)
    requires t != [] && SkipSpace(t) == t && DigitLength(t) < |t|
    ensures
      var n := DigitLength(t);
      && AllDigits(t[..n])
      && NumberAt(t + y) ==
         if n == 0 then Failed(BadChar(t[0], |t| + |y|))
         else if Decimal(t[..n]) < USIZE_LIMIT then Done(Decimal(t[..n]), t[n..] + y)
         else Failed(TooGreat(|t| + |y|))
  {
    hide *;
    var n := DigitLength(t);
    SpaceLocal(t, y);
    RunsLocal(t, y);
    Rest(t, y, n);
    assert (t + y)[0] == t[0];
    DigitsAre(t);
    assert (t + y)[..n] == t[..n];
    NumberIs(t + y, t + y, n);
  }

  lemma FirstMoved(b: Byte, t: Bytes, y: Bytes, z: Bytes)
    ensures Moved(BadChar(b, |t| + |y|), |y|, |z|) == BadChar(b, |t| + |z|)
  {
  }

  lemma GreatMoved(t: Bytes, y: Bytes, z: Bytes)
    ensures Moved(TooGreat(|t| + |y|), |y|, |z|) == TooGreat(|t| + |z|)
  {
  }

  lemma NumberLocal(x: Bytes, y: Bytes, z: Bytes)
    ensures Local(NumberAt(x + y), NumberAt(x + z), y, z)
  {
    hide SkipSpace, DigitLength, Decimal, Same;
    SpaceLocal(x, y);
    SpaceLocal(x, z);
    var t := SkipSpace(x);
    NumberAfterSpace(x + y);
    NumberAfterSpace(x + z);
    if t == [] {
      NumberWithin(y);
      NumberAfterSpace(y);
      NotInside(NumberAt(x + y), NumberAt(x + z), y, y, z);
    } else {
      SkipTwice(x);
      if DigitLength(t) < |t| {
        DigitsLocal(t, y, z);
      } else {
        AllDigitsLocal(t, y, z);
      }
    }
  }

  /** The digits go on past `t`. */
  lemma AllDigitsLocal(t: Bytes, y: Bytes, z: Bytes)
    requires t != [] && SkipSpace(t) == t && DigitLength(t) == |t|
    ensures Local(NumberAt(t + y), NumberAt(t + z), y, z)
  {
    hide SkipSpace, DigitLength, Decimal, Same;
    SpaceLocal(t, y);
    SpaceLocal(t, z);
    RunsLocal(t, y);
    RunsLocal(t, z);
    DigitsAre(t + y);
    DigitsAre(t + z);
    if y == [] {
      assert t + y == t;
      StillTooGreat(t, z);
    }
  }

  lemma NumberAfterSpace(s: Bytes)
    ensures NumberAt(SkipSpace(s)) == NumberAt(s)
  {
    hide SkipSpace, DigitLength, Decimal;
    SkipTwice(s);
  }

  lemma MapLocal<T(!new), U(!new)>(p: Parse<T>, q: Parse<T>, f: T -> U, y: Bytes, z: Bytes)
    requires Local(p, q, y, z)
    ensures Local(MapParse(p, f), MapParse(q, f), y, z)
  {
  }

  lemma MapWithin<T(!new), U(!new)>(p: Parse<T>, f: T -> U, s: Bytes)
    requires Within(p, s)
    ensures Within(MapParse(p, f), s)
  {
  }

  //
  // Filters
  //

  /** The argument of a filter, after its colon. */
  function ArgumentAt(kw: Bytes, r: Bytes, left: nat): Parse<Filter> {
    if kw == SKIP then MapParse(NumberAt(r), n => Skip(n))
    else if kw == TAKE then MapParse(NumberAt(r), n => Take(n))
    else if kw == AFTER then MapParse(NameAt(r), n => After(n))
    else if kw == BEFORE then MapParse(NameAt(r), n => Before(n))
    else Failed(BadFilter(kw, left))
  }

  lemma FilterIs(s: Bytes)
    ensures
      var t := SkipSpace(s);
      var c := ExpectAt(t[LetterLength(t)..], COLON);
      FilterAt(s) == if c.Failed? then Failed(c.fault) else ArgumentAt(t[..LetterLength(t)], c.rest, |s|)
  {
    hide SkipSpace, LetterLength, ExpectAt, NumberAt, NameAt;
  }

  lemma ArgumentLocal(kw: Bytes, r: Bytes, y: Bytes, z: Bytes, left: nat)
    ensures Local(ArgumentAt(kw, r + y, left + |y|), ArgumentAt(kw, r + z, left + |z|), y, z)
  {
    hide NumberAt, NameAt, Same;
    NumberLocal(r, y, z);
    NameLocal(r, y, z);
    MapLocal(NumberAt(r + y), NumberAt(r + z), n => Skip(n), y, z);
    MapLocal(NumberAt(r + y), NumberAt(r + z), n => Take(n), y, z);
    MapLocal(NameAt(r + y), NameAt(r + z), n => After(n), y, z);
    MapLocal(NameAt(r + y), NameAt(r + z), n => Before(n), y, z);
  }

  /** After a colon that is not in `x`, nothing is inside `x`. */
  lemma ArgumentPast(kw: Bytes, r: Bytes, left: nat, y: Bytes, z: Bytes, q: Parse<Filter>)
    requires |r| < |y|
    ensures Local(ArgumentAt(kw, r, left), q, y, z)
  {
    hide NumberAt, NameAt, Same, Suffix, SkipSpace;
    NumberWithin(r);
    NameWithin(r);
    WithinShorter(NumberAt(r), r);
    WithinShorter(NameAt(r), r);
  }

  lemma WithinShorter<T(!new)>(p: Parse<T>, s: Bytes)
    requires Within(p, s)
    ensures p.Done? ==> |p.rest| <= |s|
    ensures p.Failed? && p.fault.BadChar? ==> 0 < p.fault.left <= |s|
    ensures p.Failed? && (p.fault.TooGreat? || p.fault.BadFilter?) ==> 0 < p.fault.left <= |s|
  {
    hide SkipSpace;
  }

  lemma FilterLocal(t: Bytes, y: Bytes, z: Bytes)
    requires t != [] && SkipSpace(t) == t
    ensures Local(FilterAt(t + y), FilterAt(t + z), y, z)
  {
    hide SkipSpace, LetterLength, ExpectAt, ArgumentAt, Same, FilterAt;
    SpaceLocal(t, y);
    SpaceLocal(t, z);
    FilterIs(t + y);
    FilterIs(t + z);
    RunsLocal(t, y);
    RunsLocal(t, z);
    var n := LetterLength(t);
    if n < |t| {
      Rest(t, y, n);
      Rest(t, z, n);
      AfterKeywordLocal(t[..n], t[n..], y, z, |t|);
    } else {
      var m := LetterLength(t + y);
      LateColon((t + y)[..m], (t + y)[m..], |t + y|, y, z, FilterAt(t + z));
    }
  }

  lemma AfterKeywordLocal(kw: Bytes, u: Bytes, y: Bytes, z: Bytes, left: nat)
    ensures
      var c, d := ExpectAt(u + y, COLON), ExpectAt(u + z, COLON);
      Local(if c.Failed? then Failed(c.fault) else ArgumentAt(kw, c.rest, left + |y|),
            if d.Failed? then Failed(d.fault) else ArgumentAt(kw, d.rest, left + |z|), y, z)
  {
    hide ArgumentAt, ExpectAt;
    ExpectLocal(u, COLON, y, z);
    var c, d := ExpectAt(u + y, COLON), ExpectAt(u + z, COLON);
    if c.Done? {
      if |c.rest| >= |y| {
        var r :| c.rest == r + y && d.rest == r + z;
        ArgumentLocal(kw, r, y, z, left);
      } else {
        ArgumentPast(kw, c.rest, left + |y|, y, z,
                     if d.Failed? then Failed(d.fault) else ArgumentAt(kw, d.rest, left + |z|));
      }
    }
  }

  lemma LateColon(kw: Bytes, u: Bytes, left: nat, y: Bytes, z: Bytes, q: Parse<Filter>)
    requires |u| <= |y|
    ensures
      var c := ExpectAt(u, COLON);
      Local(if c.Failed? then Failed(c.fault) else ArgumentAt(kw, c.rest, left), q, y, z)
  {
    hide ArgumentAt, ExpectAt, Same, Suffix, SkipSpace;
    ExpectWithin(u, COLON);
    var c := ExpectAt(u, COLON);
    WithinShorter(c, u);
    if c.Done? { ArgumentPast(kw, c.rest, left, y, z, q); }
  }

  /** A byte that is looked for in front of what comes next. */
  lemma ByteLocal(r: Bytes, b: Byte, y: Bytes)
    ensures SkipSpace(r) != [] ==>
      (NextIs(r + y, b) <==> NextIs(r, b)) && AfterByte(r + y, b) == AfterByte(r, b) + y
    ensures SkipSpace(r) == [] ==> NextIs(r + y, b) == NextIs(y, b) && AfterByte(r + y, b) == AfterByte(y, b)
    ensures SkipSpace(r) == [] ==> AfterByte(r, b) == []
    ensures |AfterByte(y, b)| <= |y|
  {
    hide SkipSpace;
    SpaceLocal(r, y);
    var t := SkipSpace(r);
    if t != [] { Rest(t, y, 1); }
  }

  lemma PrependLocal<T(!new)>(v: seq<T>, p: Parse<seq<T>>, q: Parse<seq<T>>, y: Bytes, z: Bytes)
    requires Local(p, q, y, z)
    ensures Local(Prepend(v, p), Prepend(v, q), y, z)
  {
  }

  lemma {:induction false} FiltersLocal(x: Bytes, y: Bytes, z: Bytes)
    ensures Local(FiltersAt(x + y), FiltersAt(x + z), y, z)
    decreases |x|
  {
    hide SkipSpace, FilterAt, FiltersAt, AfterByte, AtEnd, Same, Suffix, Prepend;
    SpaceLocal(x, y);
    SpaceLocal(x, z);
    var t := SkipSpace(x);
    if t == [] {
      FiltersWithin(y);
      FiltersAfterSpace(x + y);
      FiltersAfterSpace(y);
      NotInside(FiltersAt(x + y), FiltersAt(x + z), y, y, z);
    } else {
      SkipTwice(x);
      FiltersStep(x + y);
      FiltersStep(x + z);
      EndLocal(t, CLOSE_PAREN, y);
      EndLocal(t, CLOSE_PAREN, z);
      if AtEnd(t + y, CLOSE_PAREN) {
        SameAt<seq<Filter>>([], t, y, z);
      } else {
        FilterLocal(t, y, z);
        FiltersOn(t, y, z, x);
      }
    }
  }

  lemma EndLocal(t: Bytes, close: Byte, y: Bytes)
    requires t != [] && SkipSpace(t) == t
    ensures AtEnd(t + y, close) <==> t[0] == close
  {
    hide SkipSpace;
    SpaceLocal(t, y);
  }

  lemma {:induction false} FiltersOn(t: Bytes, y: Bytes, z: Bytes, x: Bytes)
    requires t != [] && |t| <= |x| && Local(FilterAt(t + y), FilterAt(t + z), y, z)
    ensures
      var p, q := FilterAt(t + y), FilterAt(t + z);
      Local(if p.Failed? then Failed(p.fault) else Prepend([p.value], FiltersAt(AfterByte(p.rest, COMMA))),
            if q.Failed? then Failed(q.fault) else Prepend([q.value], FiltersAt(AfterByte(q.rest, COMMA))), y, z)
    decreases |x|, 0
  {
    hide SkipSpace, FilterAt, FiltersAt, AfterByte, Suffix, NextIs;
    var p, q := FilterAt(t + y), FilterAt(t + z);
    if p.Done? {
      if |p.rest| > |y| {
        var r :| p.rest == r + y && q.rest == r + z;
        ByteLocal(r, COMMA, y);
        ByteLocal(r, COMMA, z);
        assert |r| < |t|;
        if SkipSpace(r) != [] {
          FiltersLocal(AfterByte(r, COMMA), y, z);
          PrependLocal([p.value], FiltersAt(AfterByte(r, COMMA) + y), FiltersAt(AfterByte(r, COMMA) + z), y, z);
        } else {
          var w := AfterByte(y, COMMA);
          FiltersWithin(w);
          NotInside(FiltersAt(w), FiltersAt(AfterByte(q.rest, COMMA)), w, y, z);
          PrependLocal([p.value], FiltersAt(w), FiltersAt(AfterByte(q.rest, COMMA)), y, z);
        }
      } else {
        var w := AfterByte(p.rest, COMMA);
        FiltersWithin(w);
        hide Same;
        PrependPast([p.value], FiltersAt(w), w, y, z,
                    if q.Failed? then Failed(q.fault) else Prepend([q.value], FiltersAt(AfterByte(q.rest, COMMA))));
      }
    }
  }

  lemma PrependPast<T(!new)>(v: seq<T>, p: Parse<seq<T>>, w: Bytes, y: Bytes, z: Bytes, q: Parse<seq<T>>)
    requires Within(p, w) && |w| <= |y|
    ensures Local(Prepend(v, p), q, y, z)
  {
    hide SkipSpace, Same;
    WithinShorter(p, w);
  }

  lemma CloseLocal<T(!new)>(p: Parse<T>, q: Parse<T>, close: Byte, y: Bytes, z: Bytes)
    requires Local(p, q, y, z)
    ensures Local(Closing(p, close), Closing(q, close), y, z)
  {
    hide ExpectAt;
    if p.Done? {
      if |p.rest| > |y| {
        var r :| p.rest == r + y && q.rest == r + z;
        ExpectLocal(r, close, y, z);
        if ExpectAt(r + y, close).Done? && |ExpectAt(r + y, close).rest| >= |y| {
          var u :| ExpectAt(r + y, close).rest == u + y && ExpectAt(r + z, close).rest == u + z;
          SameAt(p.value, u, y, z);
        }
      } else {
        ExpectWithin(p.rest, close);
        hide SkipSpace, Same;
        WithinShorter(ExpectAt(p.rest, close), p.rest);
      }
    }
  }

  /** A list and the byte that closes it. */
  function Closing<T>(p: Parse<T>, close: Byte): Parse<T> {
    if p.Failed? then p
    else
      match ExpectAt(p.rest, close)
      case Failed(e) => Failed(e)
      case Done(_, rest) => Done(p.value, rest)
  }

  lemma FilterListIs(s: Bytes)
    ensures FilterListAt(s) == if NextIs(s, OPEN_PAREN) then Closing(FiltersAt(AfterByte(s, OPEN_PAREN)), CLOSE_PAREN)
                               else Done([], SkipSpace(s))
  {
    hide FiltersAt, ExpectAt, SkipSpace;
  }

  lemma FilterListLocal(x: Bytes, y: Bytes, z: Bytes)
    ensures Local(FilterListAt(x + y), FilterListAt(x + z), y, z)
  {
    hide SkipSpace, FiltersAt, NextIs, AfterByte, Same, FilterListAt, Closing;
    FilterListIs(x + y);
    FilterListIs(x + z);
    SpaceLocal(x, y);
    SpaceLocal(x, z);
    var t := SkipSpace(x);
    ByteLocal(x, OPEN_PAREN, y);
    ByteLocal(x, OPEN_PAREN, z);
    if t == [] {
      FilterListWithin(y);
      FilterListIs(y);
      NotInside(FilterListAt(x + y), FilterListAt(x + z), y, y, z);
    } else if NextIs(x, OPEN_PAREN) {
      var u := AfterByte(x, OPEN_PAREN);
      FiltersLocal(u, y, z);
      CloseLocal(FiltersAt(u + y), FiltersAt(u + z), CLOSE_PAREN, y, z);
    } else {
      SameAt<seq<Filter>>([], t, y, z);
    }
  }

  //
  // Selects. After a name comes an alias, if the next word is `as`; so a parse depends on what continues "a" and "as".
  //

  predicate Decided(rest: Bytes, n: nat) {
    |rest| > n && rest[..|rest| - n] !in [[97], [97, 115]]
  }

  ghost predicate LocalWord<T(!new)>(p: Parse<T>, q: Parse<T>, y: Bytes, z: Bytes) {
    SameFault(p, q, y, z) && (p.Done? && Decided(p.rest, |y|) ==> Same(p, q, y, z))
  }

  lemma NotInsideWord<T(!new)>(p: Parse<T>, q: Parse<T>, s: Bytes, y: Bytes, z: Bytes)
    requires Within(p, s) && |s| <= |y|
    ensures LocalWord(p, q, y, z)
  {
  }

  lemma AliasIs(s: Bytes)
    ensures
      AliasAt(s) == if KeywordNext(s, AS) then MapParse(NameAt(SkipSpace(s)[2..]), n => Some(n))
                    else Done(None, SkipSpace(s))
    ensures KeywordNext(s, AS) ==> |SkipSpace(s)| >= 2
  {
    hide NameAt, SkipSpace;
  }

  lemma AliasLocal(x: Bytes, y: Bytes, z: Bytes)
    ensures LocalWord(AliasAt(x + y), AliasAt(x + z), y, z)
  {
    hide SkipSpace, NameAt, Same, AliasAt;
    AliasIs(x + y);
    AliasIs(x + z);
    SpaceLocal(x, y);
    SpaceLocal(x, z);
    var t := SkipSpace(x);
    if t == [] {
      AliasWithin(y);
      AliasIs(y);
      NotInsideWord(AliasAt(x + y), AliasAt(x + z), y, y, z);
    } else if t == [97] || t == [97, 115] {
      if KeywordNext(x + y, AS) {
        var u := (t + y)[2..];
        NameWithin(u);
        MapWithin(NameAt(u), n => Some(n), u);
        NotInsideWord(AliasAt(x + y), AliasAt(x + z), u, y, z);
      } else {
        assert (t + y)[..|t|] == t;
      }
    } else {
      KeywordLocal(t, y);
      KeywordLocal(t, z);
      if AS <= t && !StartsWord(t[2..]) {
        Rest(t, y, 2);
        Rest(t, z, 2);
        NameLocal(t[2..], y, z);
        MapLocal(NameAt(t[2..] + y), NameAt(t[2..] + z), n => Some(n), y, z);
      } else {
        SameAt<Option<Bytes>>(None, t, y, z);
      }
    }
  }

  lemma KeywordLocal(t: Bytes, y: Bytes)
    requires t != [] && t != [97] && t != [97, 115]
    ensures AS <= t + y && !StartsWord((t + y)[2..]) <==> AS <= t && !StartsWord(t[2..])
  {
    var s := t + y;
    assert s[0] == t[0];
    assert |t| == 1 ==> t == [t[0]];
    assert |t| == 2 ==> t == [t[0], t[1]];
    assert |t| >= 2 ==> s[1] == t[1];
    if AS <= s {
      assert s[0] == AS[0] && s[1] == AS[1];
      assert |t| >= 3 ==> s[2] == t[2] && t[1] == s[1];
      assert |t| >= 3 ==> t[..2] == AS;
      assert |t| >= 3 ==> s[2..][0] == s[2] && t[2..][0] == t[2];
    }
    if AS <= t {
      assert t[..2] == AS && s[..2] == AS;
      assert |t| >= 3;
      assert s[2..][0] == t[2] == t[2..][0];
    }
  }

  /** What does not start with a letter is no keyword that goes on. */
  lemma NotLetterDecided(r: Bytes, n: nat)
    requires |r| > n && r[0] != 97
    ensures Decided(r, n)
  {
    assert r[..|r| - n][0] == r[0];
  }

  /** A select after its name, up to its braces. */
  function HeadTail(name: Bytes, r: Bytes): Parse<Select> {
    match AliasAt(r)
    case Failed(e) => Failed(e)
    case Done(alias, t) => MapParse(FilterListAt(t), fs => Select(name, alias, fs, []))
  }

  lemma HeadIs(s: Bytes)
    ensures
      var n := NameAt(s);
      HeadAt(s) == if n.Failed? then Failed(n.fault) else HeadTail(n.value, n.rest)
  {
    hide NameAt, AliasAt, FilterListAt;
  }

  lemma HeadTailWithin(name: Bytes, r: Bytes)
    ensures Within(HeadTail(name, r), r)
  {
    hide AliasAt, FilterListAt, PointsInto, Suffix;
    AliasWithin(r);
    if AliasAt(r).Done? {
      var alias, t := AliasAt(r).value, AliasAt(r).rest;
      FilterListWithin(t);
      WithinOf(FilterListAt(t), t, r);
      MapWithin(FilterListAt(t), fs => Select(name, alias, fs, []), r);
    }
  }

  lemma HeadTailLocal(name: Bytes, r: Bytes, y: Bytes, z: Bytes)
    ensures LocalWord(HeadTail(name, r + y), HeadTail(name, r + z), y, z)
  {
    hide AliasAt, FilterListAt, NextIs, SkipSpace, Suffix;
    AliasLocal(r, y, z);
    var a, b := AliasAt(r + y), AliasAt(r + z);
    if a.Done? {
      var make := (fs: seq<Filter>) => Select(name, a.value, fs, []);
      if Decided(a.rest, |y|) {
        var t :| a.rest == t + y && b.rest == t + z;
        FilterListLocal(t, y, z);
        MapLocal(FilterListAt(t + y), FilterListAt(t + z), make, y, z);
      } else if |a.rest| <= |y| {
        FilterListWithin(a.rest);
        hide Same;
        MapWithin(FilterListAt(a.rest), make, a.rest);
        NotInsideWord(MapParse(FilterListAt(a.rest), make), HeadTail(name, r + z), a.rest, y, z);
      } else {
        assert a.rest[0] == a.rest[..|a.rest| - |y|][0] == 97;
        NoSpaceBefore(a.rest);
        FilterListIs(a.rest);
        LetterNext(a.rest, OPEN_PAREN);
      }
    }
  }

  lemma LetterNext(s: Bytes, b: Byte)
    requires s != [] && s[0] == 97 && b != 97
    ensures !NextIs(s, b) && SkipSpace(s) == s && AfterByte(s, b) == s
  {
    NoSpaceBefore(s);
  }

  lemma HeadLocal(x: Bytes, y: Bytes, z: Bytes)
    ensures LocalWord(HeadAt(x + y), HeadAt(x + z), y, z)
  {
    hide NameAt, HeadAt, HeadTail, Suffix;
    HeadIs(x + y);
    HeadIs(x + z);
    NameLocal(x, y, z);
    var p, q := NameAt(x + y), NameAt(x + z);
    if p.Done? {
      if |p.rest| > |y| {
        var r :| p.rest == r + y && q.rest == r + z;
        HeadTailLocal(p.value, r, y, z);
      } else {
        HeadTailWithin(p.value, p.rest);
        hide Same;
        NotInsideWord(HeadAt(x + y), HeadAt(x + z), p.rest, y, z);
      }
    }
  }

  /** A select after its head. */
  function SelectTail(head: Select, r: Bytes): Parse<Select> {
    if NextIs(r, OPEN_BRACE)
    then MapParse(Closing(SelectsAt(AfterByte(r, OPEN_BRACE)), CLOSE_BRACE), ss => head.(subselects := ss))
    else Done(head, SkipSpace(r))
  }

  lemma SelectIs(s: Bytes)
    ensures
      SelectAt(s) == if HeadAt(s).Failed? then Failed(HeadAt(s).fault) else SelectTail(HeadAt(s).value, HeadAt(s).rest)
  {
    hide HeadAt, SelectsAt, ExpectAt, SkipSpace, NextIs;
  }

  lemma ClosingWithin<T(!new)>(p: Parse<T>, close: Byte, s: Bytes)
    requires Within(p, s)
    ensures Within(Closing(p, close), s)
  {
    hide ExpectAt, Suffix, PointsInto;
    if p.Done? {
      ExpectWithin(p.rest, close);
      WithinOf(ExpectAt(p.rest, close), p.rest, s);
    }
  }

  lemma SelectTailWithin(head: Select, r: Bytes)
    ensures Within(SelectTail(head, r), r)
  {
    hide SelectsAt, AfterByte, NextIs, SkipSpace, Suffix, PointsInto, Closing;
    SpaceSuffix(r);
    if NextIs(r, OPEN_BRACE) {
      var t := AfterByte(r, OPEN_BRACE);
      ByteSuffix(r, OPEN_BRACE);
      SelectsWithin(t);
      WithinOf(SelectsAt(t), t, r);
      ClosingWithin(SelectsAt(t), CLOSE_BRACE, r);
      MapWithin(Closing(SelectsAt(t), CLOSE_BRACE), ss => head.(subselects := ss), r);
    }
  }

  lemma {:induction false} SelectTailLocal(head: Select, r: Bytes, y: Bytes, z: Bytes)
    ensures Local(SelectTail(head, r + y), SelectTail(head, r + z), y, z)
    decreases |r|, 1
  {
    hide SkipSpace, SelectsAt, NextIs, AfterByte, Same, Suffix, Closing;
    SpaceLocal(r, y);
    SpaceLocal(r, z);
    ByteLocal(r, OPEN_BRACE, y);
    ByteLocal(r, OPEN_BRACE, z);
    var t := SkipSpace(r);
    if t == [] {
      SelectTailWithin(head, y);
      NotInside(SelectTail(head, r + y), SelectTail(head, r + z), y, y, z);
    } else if NextIs(r, OPEN_BRACE) {
      var u := AfterByte(r, OPEN_BRACE);
      SelectsLocal(u, y, z);
      CloseLocal(SelectsAt(u + y), SelectsAt(u + z), CLOSE_BRACE, y, z);
      MapLocal(Closing(SelectsAt(u + y), CLOSE_BRACE), Closing(SelectsAt(u + z), CLOSE_BRACE),
               ss => head.(subselects := ss), y, z);
    } else {
      SameAt(head, t, y, z);
    }
  }

  lemma {:induction false} SelectLocal(x: Bytes, y: Bytes, z: Bytes)
    ensures LocalWord(SelectAt(x + y), SelectAt(x + z), y, z)
    decreases |x|, 0
  {
    hide HeadAt, SelectAt, SelectTail, Suffix, SkipSpace;
    SelectIs(x + y);
    SelectIs(x + z);
    HeadLocal(x, y, z);
    var p, q := HeadAt(x + y), HeadAt(x + z);
    if p.Done? {
      if Decided(p.rest, |y|) {
        var r :| p.rest == r + y && q.rest == r + z;
        assert |r| < |x|;
        SelectTailLocal(p.value, r, y, z);
      } else if |p.rest| <= |y| {
        SelectTailWithin(p.value, p.rest);
        hide Same;
        NotInsideWord(SelectAt(x + y), SelectAt(x + z), p.rest, y, z);
      } else {
        assert p.rest[0] == p.rest[..|p.rest| - |y|][0] == 97;
        LetterNext(p.rest, OPEN_BRACE);
        UnopenedTail(p.value, p.rest);
      }
    }
  }

  lemma UnopenedTail(head: Select, r: Bytes)
    requires !NextIs(r, OPEN_BRACE)
    ensures SelectTail(head, r) == Done(head, SkipSpace(r))
  {
    hide SkipSpace, NextIs;
  }

  lemma {:induction false} SelectsLocal(x: Bytes, y: Bytes, z: Bytes)
    ensures Local(SelectsAt(x + y), SelectsAt(x + z), y, z)
    decreases |x|, 3
  {
    hide SkipSpace, SelectAt, SelectsAt, AfterByte, AtEnd, Same, Suffix, Prepend;
    SpaceLocal(x, y);
    SpaceLocal(x, z);
    var t := SkipSpace(x);
    if t == [] {
      SelectsWithin(y);
      SelectsAfterSpace(x + y);
      SelectsAfterSpace(y);
      NotInside(SelectsAt(x + y), SelectsAt(x + z), y, y, z);
    } else {
      SkipTwice(x);
      SpaceShorter(x);
      SelectsStep(x + y);
      SelectsStep(x + z);
      EndLocal(t, CLOSE_BRACE, y);
      EndLocal(t, CLOSE_BRACE, z);
      if AtEnd(t + y, CLOSE_BRACE) {
        SameAt<seq<Select>>([], t, y, z);
      } else {
        SelectLocal(t, y, z);
        SelectsOn(t, y, z);
      }
    }
  }

  lemma {:induction false} SelectsOn(t: Bytes, y: Bytes, z: Bytes)
    requires t != [] && LocalWord(SelectAt(t + y), SelectAt(t + z), y, z)
    ensures
      var p, q := SelectAt(t + y), SelectAt(t + z);
      Local(if p.Failed? then Failed(p.fault) else Prepend([p.value], SelectsAt(AfterByte(p.rest, COMMA))),
            if q.Failed? then Failed(q.fault) else Prepend([q.value], SelectsAt(AfterByte(q.rest, COMMA))), y, z)
    decreases |t|, 2
  {
    hide SkipSpace, SelectAt, SelectsAt, AfterByte, Suffix, NextIs;
    var p, q := SelectAt(t + y), SelectAt(t + z);
    var whole := if q.Failed? then Failed(q.fault) else Prepend([q.value], SelectsAt(AfterByte(q.rest, COMMA)));
    if p.Done? {
      if Decided(p.rest, |y|) {
        var r :| p.rest == r + y && q.rest == r + z;
        ByteLocal(r, COMMA, y);
        ByteLocal(r, COMMA, z);
        assert |r| < |t|;
        if SkipSpace(r) != [] {
          SelectsLocal(AfterByte(r, COMMA), y, z);
          PrependLocal([p.value], SelectsAt(AfterByte(r, COMMA) + y), SelectsAt(AfterByte(r, COMMA) + z), y, z);
        } else {
          var w := AfterByte(y, COMMA);
          SelectsWithin(w);
          PrependPast([p.value], SelectsAt(w), w, y, z, whole);
        }
      } else if |p.rest| <= |y| {
        var w := AfterByte(p.rest, COMMA);
        SelectsWithin(w);
        PrependPast([p.value], SelectsAt(w), w, y, z, whole);
      } else {
        var r := p.rest[..|p.rest| - |y|];
        assert p.rest[0] == r[0] == 97;
        LetterNext(p.rest, COMMA);
        var u := WordPast(p.rest, |r|);
        PrependPast([p.value], SelectsAt(p.rest), u, y, z, whole);
      }
    }
  }

  /** A list that starts with a word is decided by what comes after it. */
  lemma WordPast(s: Bytes, n: nat) returns (u: Bytes)
    requires n <= |s| && s[..n] in [[97], [97, 115]]
    ensures Within(SelectsAt(s), u) && |u| <= |s| - n
  {
    hide SkipSpace, NameAt, HeadAt, SelectAt, SelectsAt, HeadTail, SelectTail, AfterByte, AtEnd, Suffix, PointsInto;
    hide Prepend;
    assert s[0] == s[..n][0] == 97;
    NoSpaceBefore(s);
    SelectsStep(s);
    NotAtEnd(s);
    WordAt(s, n);
    u := NameAt(s).rest;
    HeadIs(s);
    HeadTailWithin(NameAt(s).value, u);
    SelectIs(s);
    if HeadAt(s).Done? {
      SelectTailWithin(HeadAt(s).value, HeadAt(s).rest);
      WithinOf(SelectAt(s), HeadAt(s).rest, u);
      if SelectAt(s).Done? {
        var r := SelectAt(s).rest;
        var w := AfterByte(r, COMMA);
        ByteSuffix(r, COMMA);
        SuffixOf(w, r, u);
        SelectsWithin(w);
        WithinOf(SelectsAt(w), w, u);
        PrependWithin([SelectAt(s).value], SelectsAt(w), u);
      }
    }
  }

  lemma NotAtEnd(s: Bytes)
    requires s != [] && s[0] == 97 && SkipSpace(s) == s
    ensures !AtEnd(s, CLOSE_BRACE)
  {
  }

  lemma PrependWithin<T(!new)>(v: seq<T>, p: Parse<seq<T>>, u: Bytes)
    requires Within(p, u)
    ensures Within(Prepend(v, p), u)
  {
  }

  lemma WordAt(s: Bytes, n: nat)
    requires n <= |s| && s[..n] in [[97], [97, 115]] && SkipSpace(s) == s
    ensures NameAt(s).Done? && |NameAt(s).rest| <= |s| - n
  {
    hide SkipSpace;
    assert s == s[..n] + s[n..];
    assert s[0] == s[..n][0] == 97;
    RunsLocal(s[..n], s[n..]);
    assert [97, 115][1..] == [115] && [97][1..] == [];
    assert WordLength([115]) == 1;
  }

  lemma QueryLocal(x: Bytes, y: Bytes, z: Bytes)
    ensures SameFault(QueryAt(x + y), QueryAt(x + z), y, z)
  {
    hide SkipSpace, SelectsAt, ExpectAt, Closing, Suffix;
    QueryIs(x + y);
    QueryIs(x + z);
    ExpectLocal(x, OPEN_BRACE, y, z);
    var p, q := ExpectAt(x + y, OPEN_BRACE), ExpectAt(x + z, OPEN_BRACE);
    if p.Done? {
      if |p.rest| >= |y| {
        var r :| p.rest == r + y && q.rest == r + z;
        SelectsLocal(r, y, z);
        CloseLocal(SelectsAt(r + y), SelectsAt(r + z), CLOSE_BRACE, y, z);
        EndingLocal(Closing(SelectsAt(r + y), CLOSE_BRACE), Closing(SelectsAt(r + z), CLOSE_BRACE), y, z);
      } else {
        SelectsWithin(p.rest);
        ClosingWithin(SelectsAt(p.rest), CLOSE_BRACE, p.rest);
        EndingPast(Closing(SelectsAt(p.rest), CLOSE_BRACE), p.rest, y, z, QueryAt(x + z));
      }
    }
  }

  /** The end of the input after the last brace. */
  function Ending(p: Parse<seq<Select>>): Parse<Query> {
    if p.Failed? then Failed(p.fault)
    else
      var v := SkipSpace(p.rest);
      if v == [] then Done(Query(p.value), []) else Failed(BadChar(v[0], |v|))
  }

  lemma QueryIs(s: Bytes)
    ensures
      var p := ExpectAt(s, OPEN_BRACE);
      QueryAt(s) == if p.Failed? then Failed(p.fault) else Ending(Closing(SelectsAt(p.rest), CLOSE_BRACE))
  {
    hide SelectsAt, ExpectAt, SkipSpace;
  }

  lemma EndingLocal(p: Parse<seq<Select>>, q: Parse<seq<Select>>, y: Bytes, z: Bytes)
    requires Local(p, q, y, z)
    ensures SameFault(Ending(p), Ending(q), y, z)
  {
    hide SkipSpace;
    if p.Done? {
      SpaceShorter(p.rest);
      if |p.rest| > |y| {
        var r :| p.rest == r + y && q.rest == r + z;
        SpaceLocal(r, y);
        SpaceLocal(r, z);
        SpaceShorter(y);
        assert SkipSpace(r) != [] ==> (SkipSpace(r) + y)[0] == SkipSpace(r)[0] == (SkipSpace(r) + z)[0];
      }
    }
  }

  lemma EndingPast(p: Parse<seq<Select>>, s: Bytes, y: Bytes, z: Bytes, q: Parse<Query>)
    requires Within(p, s) && |s| <= |y|
    ensures SameFault(Ending(p), q, y, z)
  {
    hide SkipSpace;
    WithinShorter(p, s);
    if p.Done? { SpaceShorter(p.rest); }
  }

  //
  // The end of the input. Where more is missing, a byte that fits nothing, after a quote if one is open, is an error
  // at that byte.
  //

  predicate Stop(e: Bytes) { e == [0] || e == [QUOTE, 0] }

  const WRONG := BadChar(0, 1)

  ghost predicate Goes<T(!new)>(p: Parse<T>, q: Parse<T>, e: Bytes) {
    p.Done? ==> q == Done(p.value, p.rest + e)
  }

  lemma StopAhead(e: Bytes)
    requires Stop(e)
    ensures SkipSpace(e) == e && !StartsWord(e) && !StartsDigit(e) && !IsLetter(e[0])
    ensures forall b :: b != 0 && b != QUOTE ==> !NextIs(e, b) && AfterByte(e, b) == e
  {
    hide SkipSpace;
    assert e != [] && (e[0] == 0 || e[0] == QUOTE);
    NoSpaceBefore(e);
  }

  lemma {:induction false} RunsStop(t: Bytes, e: Bytes)
    requires Stop(e)
    ensures WordLength(t + e) == WordLength(t) && DigitLength(t + e) == DigitLength(t)
    ensures LetterLength(t + e) == LetterLength(t)
  {
    if t == [] {
      assert t + e == e;
    } else {
      assert (t + e)[1..] == t[1..] + e;
      RunsStop(t[1..], e);
    }
  }

  lemma ByteStop(s: Bytes, b: Byte, e: Bytes)
    requires Stop(e) && b != 0 && b != QUOTE
    ensures NextIs(s + e, b) == NextIs(s, b) && AfterByte(s + e, b) == AfterByte(s, b) + e
  {
    hide SkipSpace;
    StopAhead(e);
    ByteLocal(s, b, e);
    if SkipSpace(s) == [] { assert !NextIs(s, b); }
  }

  lemma ExpectGoes(s: Bytes, b: Byte, e: Bytes)
    requires Stop(e) && b != 0 && b != QUOTE
    ensures Goes(ExpectAt(s, b), ExpectAt(s + e, b), e)
    ensures ExpectAt(s, b) == Failed(Ended) ==> ExpectAt(s + [0], b) == Failed(WRONG)
  {
    hide SkipSpace;
    SpaceLocal(s, e);
    SpaceLocal(s, [0]);
    StopAhead(e);
    StopAhead([0]);
    var t := SkipSpace(s);
    if t != [] { Rest(t, e, 1); }
  }

  lemma NameGoes(s: Bytes, e: Bytes)
    requires Stop(e)
    ensures Goes(NameAt(s), NameAt(s + e), e)
  {
    hide SkipSpace, QuoteLength, WordLength;
    SpaceLocal(s, e);
    var t := SkipSpace(s);
    if NameAt(s).Done? {
      if t[0] == QUOTE {
        Rest(t, e, 1);
        var u := t[1..];
        RunsLocal(u, e);
        Rest(u, e, QuoteLength(u));
        Rest(u, e, QuoteLength(u) + 1);
      } else {
        RunsStop(t, e);
        Rest(t, e, WordLength(t));
      }
    }
  }

  /** The parse is stopped by the wrong byte, or just before it. */
  ghost predicate Halted<T(!new)>(p: Parse<T>) {
    p == Failed(WRONG) || (p.Done? && p.rest == [0])
  }

  lemma NameEnded(s: Bytes) returns (e: Bytes)
    requires NameAt(s) == Failed(Ended)
    ensures Stop(e) && Halted(NameAt(s + e))
  {
    hide SkipSpace, QuoteLength;
    var t := SkipSpace(s);
    if t == [] {
      e := [0];
      SpaceLocal(s, e);
      StopAhead(e);
    } else {
      e := [QUOTE, 0];
      SpaceLocal(s, e);
      var u := t[1..];
      Rest(t, e, 1);
      QuoteEnds(u);
    }
  }

  lemma {:induction false} QuoteEnds(u: Bytes)
    requires QuoteLength(u) == |u|
    ensures QuoteLength(u + [QUOTE, 0]) == |u| && (u + [QUOTE, 0])[|u| + 1..] == [0]
  {
    var s := u + [QUOTE, 0];
    if u != [] {
      assert s[1..] == u[1..] + [QUOTE, 0];
      QuoteEnds(u[1..]);
    }
  }

  lemma NumberGoes(s: Bytes, e: Bytes)
    requires Stop(e)
    ensures Goes(NumberAt(s), NumberAt(s + e), e)
    ensures NumberAt(s) == Failed(Ended) ==> NumberAt(s + [0]) == Failed(WRONG)
  {
    hide SkipSpace, DigitLength, Decimal;
    SpaceLocal(s, e);
    SpaceLocal(s, [0]);
    StopAhead([0]);
    var t := SkipSpace(s);
    RunsStop(t, e);
    RunsStop(t, [0]);
    DigitsAre(t);
    DigitsAre(t + e);
    Rest(t, e, DigitLength(t));
    if t == [] { assert t + [0] == [0]; }
  }

  lemma MapGoes<T(!new), U(!new)>(p: Parse<T>, q: Parse<T>, f: T -> U, e: Bytes)
    requires Goes(p, q, e)
    ensures Goes(MapParse(p, f), MapParse(q, f), e)
  {
  }

  lemma FilterGoes(s: Bytes, e: Bytes)
    requires Stop(e)
    ensures Goes(FilterAt(s), FilterAt(s + e), e)
  {
    hide SkipSpace, LetterLength, ExpectAt, NumberAt, NameAt;
    SpaceLocal(s, e);
    StopAhead(e);
    if FilterAt(s).Done? {
      FilterStarts(s);
      var t := SkipSpace(s);
      RunsStop(t, e);
      var n := LetterLength(t);
      Rest(t, e, n);
      ExpectGoes(t[n..], COLON, e);
      var r := ExpectAt(t[n..], COLON).rest;
      NumberGoes(r, e);
      NameGoes(r, e);
    }
  }

  lemma FilterStarts(s: Bytes)
    requires FilterAt(s).Done?
    ensures SkipSpace(s) != []
  {
    hide NumberAt, NameAt;
  }

  lemma FilterEnded(s: Bytes) returns (e: Bytes)
    requires FilterAt(s) == Failed(Ended)
    ensures Stop(e) && Halted(FilterAt(s + e))
  {
    hide SkipSpace, LetterLength, ExpectAt, NumberAt, NameAt;
    var t := SkipSpace(s);
    var n := LetterLength(t);
    e := [0];
    if ExpectAt(t[n..], COLON).Done? {
      var kw, r := t[..n], ExpectAt(t[n..], COLON).rest;
      NumberGoes(r, e);
      if kw != SKIP && kw != TAKE { e := NameEnded(r); }
    }
    SpaceLocal(s, e);
    StopAhead(e);
    RunsStop(t, e);
    Rest(t, e, n);
    if t == [] { assert t + e == e; }
    ExpectGoes(t[n..], COLON, e);
  }

  lemma EndStop(t: Bytes, close: Byte, e: Bytes)
    requires Stop(e) && close != 0 && close != QUOTE
    ensures !(SkipSpace(t) == [] && AtEnd(t, close)) ==> (AtEnd(t + e, close) <==> AtEnd(t, close))
    ensures SkipSpace(t) == [] ==> !AtEnd(t + e, close) && SkipSpace(t + e) == e
  {
    hide SkipSpace;
    StopAhead(e);
    SpaceLocal(t, e);
    ByteStop(t, close, e);
    if SkipSpace(t) == [] { assert !NextIs(t, close); }
  }

  lemma WrongFirst()
    ensures SkipSpace([0]) == [0] && LetterLength([0]) == 0 && ExpectAt([0], COLON) == Failed(WRONG)
    ensures !AtEnd([0], CLOSE_PAREN) && !AtEnd([0], CLOSE_BRACE) && NameAt([0]) == Failed(WRONG)
  {
  }

  lemma WrongFilter()
    ensures FilterAt([0]) == Failed(WRONG) && FiltersAt([0]) == Failed(WRONG)
  {
    WrongFirst();
    assert [0][0..] == [0];
    hide SkipSpace, LetterLength, ExpectAt, FilterAt, FiltersAt, AtEnd;
    FilterIs([0]);
    FiltersStep([0]);
  }

  /** A list goes on before the byte that closes it; at the end of the input the wrong byte is an error. */
  lemma {:induction false} FiltersGo(s: Bytes, e: Bytes)
    requires Stop(e) && FiltersAt(s).Done?
    ensures FiltersAt(s).rest != [] ==> FiltersAt(s + e) == Done(FiltersAt(s).value, FiltersAt(s).rest + e)
    ensures FiltersAt(s).rest == [] && e == [0] ==> FiltersAt(s + e) == Failed(WRONG)
    decreases |s|
  {
    hide SkipSpace, FilterAt, FiltersAt, AfterByte, NextIs, AtEnd;
    FiltersStep(s);
    FiltersStep(s + e);
    SpaceLocal(s, e);
    StopAhead(e);
    var t := SkipSpace(s);
    EndStop(t, CLOSE_PAREN, e);
    if t == [] {
      ListEnds(t, CLOSE_PAREN);
      assert [] + e == e;
      WrongFilter();
    } else if !AtEnd(t, CLOSE_PAREN) {
      FilterGoes(t, e);
      var r := FilterAt(t).rest;
      ByteStop(r, COMMA, e);
      FiltersGo(AfterByte(r, COMMA), e);
    }
  }

  lemma ListEnds(t: Bytes, close: Byte)
    requires t == []
    ensures AtEnd(t, close)
  {
  }

  lemma {:induction false} FiltersEnded(s: Bytes) returns (e: Bytes)
    requires FiltersAt(s) == Failed(Ended)
    ensures Stop(e) && FiltersAt(s + e) == Failed(WRONG)
    decreases |s|
  {
    hide SkipSpace, FilterAt, FiltersAt, AfterByte, NextIs, AtEnd;
    FiltersStep(s);
    var t := SkipSpace(s);
    if FilterAt(t).Failed? {
      e := FilterEnded(t);
    } else {
      e := FiltersEnded(AfterByte(FilterAt(t).rest, COMMA));
      FilterGoes(t, e);
      ByteStop(FilterAt(t).rest, COMMA, e);
    }
    FiltersStep(s + e);
    SpaceLocal(s, e);
    StopAhead(e);
    EndStop(t, CLOSE_PAREN, e);
    StopAhead([0]);
    if t == [] { ListEnds(t, CLOSE_PAREN); }
    WrongFilter();
  }

  lemma ClosingGoes<T(!new)>(p: Parse<T>, q: Parse<T>, close: Byte, e: Bytes)
    requires Stop(e) && close != 0 && close != QUOTE && Closing(p, close).Done? && Goes(p, q, e)
    ensures Closing(q, close) == Done(p.value, Closing(p, close).rest + e)
  {
    hide ExpectAt;
    ExpectGoes(p.rest, close, e);
  }

  lemma ExpectsSome(s: Bytes, b: Byte)
    ensures ExpectAt(s, b).Done? ==> s != []
  {
  }

  lemma FilterListGoes(s: Bytes, e: Bytes)
    requires Stop(e)
    ensures Goes(FilterListAt(s), FilterListAt(s + e), e)
  {
    hide SkipSpace, FiltersAt, NextIs, AfterByte, FilterListAt, ExpectAt;
    FilterListIs(s);
    FilterListIs(s + e);
    ByteStop(s, OPEN_PAREN, e);
    SpaceLocal(s, e);
    StopAhead(e);
    if FilterListAt(s).Done? {
      if NextIs(s, OPEN_PAREN) {
        var t := AfterByte(s, OPEN_PAREN);
        ExpectsSome(FiltersAt(t).rest, CLOSE_PAREN);
        FiltersGo(t, e);
        ClosingGoes(FiltersAt(t), FiltersAt(t + e), CLOSE_PAREN, e);
      } else if SkipSpace(s) == [] {
        assert [] + e == e;
      }
    }
  }

  lemma FilterListEnded(s: Bytes) returns (e: Bytes)
    requires FilterListAt(s) == Failed(Ended)
    ensures Stop(e) && FilterListAt(s + e) == Failed(WRONG)
  {
    hide SkipSpace, FiltersAt, NextIs, AfterByte, FilterListAt, ExpectAt;
    FilterListIs(s);
    var t := AfterByte(s, OPEN_PAREN);
    e := FilterClose(t);
    FilterListIs(s + e);
    ByteStop(s, OPEN_PAREN, e);
  }

  lemma FilterClose(t: Bytes) returns (e: Bytes)
    requires Closing(FiltersAt(t), CLOSE_PAREN) == Failed(Ended)
    ensures Stop(e) && Closing(FiltersAt(t + e), CLOSE_PAREN) == Failed(WRONG)
  {
    hide FiltersAt;
    if FiltersAt(t).Failed? {
      e := FiltersEnded(t);
    } else {
      e := [0];
      FiltersGo(t, e);
      FiltersRest(t);
    }
  }

  /** A list ends with the input or before the byte that closes it. */
  lemma {:induction false} FiltersRest(s: Bytes)
    requires FiltersAt(s).Done?
    ensures FiltersAt(s).rest == [] || ExpectAt(FiltersAt(s).rest, CLOSE_PAREN).Done?
    decreases |s|
  {
    hide SkipSpace, FilterAt, FiltersAt, AfterByte, NextIs;
    FiltersStep(s);
    var t := SkipSpace(s);
    if !AtEnd(t, CLOSE_PAREN) { FiltersRest(AfterByte(FilterAt(t).rest, COMMA)); } else { EndsInClose(t, CLOSE_PAREN); }
  }

  lemma EndsInClose(t: Bytes, close: Byte)
    requires SkipSpace(t) == t && AtEnd(t, close)
    ensures t == [] || ExpectAt(t, close).Done?
  {
  }

  lemma StartsStop(v: Bytes, e: Bytes)
    requires Stop(e)
    ensures StartsWord(v + e) == StartsWord(v)
  {
    hide IsWord;
    assert (v + e)[0] == if v == [] then e[0] else v[0];
    StopAhead(e);
  }

  lemma PrefixStop(t: Bytes, e: Bytes)
    requires Stop(e) && t != []
    ensures AS <= t + e <==> AS <= t
    ensures AS <= t ==> |t| >= 2
  {
    if |t| == 1 {
      assert (t + e)[1] == e[0];
    } else {
      assert (t + e)[..2] == t[..2];
    }
  }

  lemma KeywordStop(s: Bytes, e: Bytes)
    requires Stop(e)
    ensures KeywordNext(s + e, AS) == KeywordNext(s, AS)
    ensures KeywordNext(s, AS) ==> |SkipSpace(s)| >= 2 && SkipSpace(s + e)[2..] == SkipSpace(s)[2..] + e
  {
    hide SkipSpace, StartsWord;
    SpaceLocal(s, e);
    StopAhead(e);
    var t := SkipSpace(s);
    if t == [] {
      assert !(AS <= e) by { NotAs(e); }
      assert !(AS <= t);
    } else {
      PrefixStop(t, e);
      if AS <= t {
        Rest(t, e, 2);
        StartsStop(t[2..], e);
      }
    }
  }

  lemma NotAs(e: Bytes)
    requires Stop(e)
    ensures !(AS <= e)
  {
    assert e[0] != AS[0];
  }

  lemma AliasGoes(s: Bytes, e: Bytes)
    requires Stop(e)
    ensures Goes(AliasAt(s), AliasAt(s + e), e)
  {
    hide SkipSpace, NameAt, AliasAt, KeywordNext;
    AliasIs(s);
    AliasIs(s + e);
    KeywordStop(s, e);
    SpaceLocal(s, e);
    StopAhead(e);
    if KeywordNext(s, AS) {
      var u := SkipSpace(s)[2..];
      NameGoes(u, e);
      MapGoes(NameAt(u), NameAt(u + e), n => Some(n), e);
    } else if SkipSpace(s) == [] {
      assert [] + e == e;
    }
  }

  lemma AliasEnded(s: Bytes) returns (e: Bytes)
    requires AliasAt(s) == Failed(Ended)
    ensures Stop(e) && Halted(AliasAt(s + e))
  {
    hide SkipSpace, NameAt, AliasAt, KeywordNext;
    AliasIs(s);
    assert KeywordNext(s, AS);
    e := NameEnded(SkipSpace(s)[2..]);
    KeywordStop(s, e);
    AliasIs(s + e);
  }

  /** After the wrong byte nothing of a select follows. */
  lemma WrongTail()
    ensures AliasAt([0]) == Done(None, [0]) && FilterListAt([0]) == Done([], [0])
    ensures !NextIs([0], OPEN_BRACE) && AfterByte([0], COMMA) == [0] && !KeywordNext([0], AS)
  {
    WrongFirst();
    hide SpaceLength;
  }

  lemma HeadTailGoes(name: Bytes, r: Bytes, e: Bytes)
    requires Stop(e)
    ensures Goes(HeadTail(name, r), HeadTail(name, r + e), e)
  {
    hide AliasAt, FilterListAt;
    AliasGoes(r, e);
    if AliasAt(r).Done? {
      var alias, t := AliasAt(r).value, AliasAt(r).rest;
      FilterListGoes(t, e);
      MapGoes(FilterListAt(t), FilterListAt(t + e), fs => Select(name, alias, fs, []), e);
    }
  }

  lemma HeadTailEnded(name: Bytes, r: Bytes) returns (e: Bytes)
    requires HeadTail(name, r) == Failed(Ended)
    ensures Stop(e) && Halted(HeadTail(name, r + e))
  {
    hide AliasAt, FilterListAt;
    if AliasAt(r).Failed? {
      e := AliasEnded(r);
      WrongTail();
    } else {
      e := FilterListEnded(AliasAt(r).rest);
      AliasGoes(r, e);
    }
  }

  lemma HeadGoes(s: Bytes, e: Bytes)
    requires Stop(e)
    ensures Goes(HeadAt(s), HeadAt(s + e), e)
  {
    hide NameAt, HeadAt, HeadTail;
    HeadIs(s);
    HeadIs(s + e);
    NameGoes(s, e);
    if NameAt(s).Done? { HeadTailGoes(NameAt(s).value, NameAt(s).rest, e); }
  }

  lemma HeadEnded(s: Bytes) returns (e: Bytes)
    requires HeadAt(s) == Failed(Ended)
    ensures Stop(e) && Halted(HeadAt(s + e))
  {
    hide NameAt, HeadAt, HeadTail;
    HeadIs(s);
    if NameAt(s).Failed? {
      e := NameEnded(s);
      if NameAt(s + e).Done? { WrongHeadTail(NameAt(s + e).value); }
    } else {
      e := HeadTailEnded(NameAt(s).value, NameAt(s).rest);
      NameGoes(s, e);
    }
    HeadIs(s + e);
  }

  lemma WrongHeadTail(name: Bytes)
    ensures HeadTail(name, [0]) == Done(Select(name, None, [], []), [0])
  {
    hide AliasAt, FilterListAt;
    WrongTail();
  }

  lemma WrongSelectTail(head: Select)
    ensures SelectTail(head, [0]) == Done(head, [0])
  {
    hide SkipSpace, NextIs;
    WrongTail();
    WrongFirst();
  }

  lemma WrongSelect()
    ensures SelectAt([0]) == Failed(WRONG) && SelectsAt([0]) == Failed(WRONG)
  {
    hide SkipSpace, NameAt, HeadAt, SelectAt, SelectsAt, AtEnd;
    WrongFirst();
    HeadIs([0]);
    SelectIs([0]);
    SelectsStep([0]);
  }

  lemma {:induction false} SelectTailGoes(head: Select, r: Bytes, e: Bytes)
    requires Stop(e)
    ensures Goes(SelectTail(head, r), SelectTail(head, r + e), e)
    decreases |r|, 1
  {
    hide SkipSpace, SelectsAt, NextIs, AfterByte, ExpectAt;
    ByteStop(r, OPEN_BRACE, e);
    SpaceLocal(r, e);
    StopAhead(e);
    if SelectTail(head, r).Done? {
      if NextIs(r, OPEN_BRACE) {
        var t := AfterByte(r, OPEN_BRACE);
        ExpectsSome(SelectsAt(t).rest, CLOSE_BRACE);
        SelectsGo(t, e);
        ClosingGoes(SelectsAt(t), SelectsAt(t + e), CLOSE_BRACE, e);
      } else if SkipSpace(r) == [] {
        assert [] + e == e;
      }
    }
  }

  lemma {:induction false} SelectGoes(s: Bytes, e: Bytes)
    requires Stop(e)
    ensures Goes(SelectAt(s), SelectAt(s + e), e)
    decreases |s|, 0
  {
    hide HeadAt, SelectAt, SelectTail;
    SelectIs(s);
    SelectIs(s + e);
    HeadGoes(s, e);
    if HeadAt(s).Done? { SelectTailGoes(HeadAt(s).value, HeadAt(s).rest, e); }
  }

  lemma {:induction false} SelectsGo(s: Bytes, e: Bytes)
    requires Stop(e) && SelectsAt(s).Done?
    ensures SelectsAt(s).rest != [] ==> SelectsAt(s + e) == Done(SelectsAt(s).value, SelectsAt(s).rest + e)
    ensures SelectsAt(s).rest == [] && e == [0] ==> SelectsAt(s + e) == Failed(WRONG)
    decreases |s|, 2
  {
    hide SkipSpace, SelectAt, SelectsAt, AfterByte, NextIs, AtEnd;
    SelectsStep(s);
    SelectsStep(s + e);
    SpaceLocal(s, e);
    SpaceShorter(s);
    StopAhead(e);
    var t := SkipSpace(s);
    EndStop(t, CLOSE_BRACE, e);
    if t == [] {
      ListEnds(t, CLOSE_BRACE);
      assert [] + e == e;
      WrongSelect();
    } else if !AtEnd(t, CLOSE_BRACE) {
      SelectGoes(t, e);
      var r := SelectAt(t).rest;
      ByteStop(r, COMMA, e);
      SelectsGo(AfterByte(r, COMMA), e);
    }
  }

  lemma {:induction false} SelectsRest(s: Bytes)
    requires SelectsAt(s).Done?
    ensures SelectsAt(s).rest == [] || ExpectAt(SelectsAt(s).rest, CLOSE_BRACE).Done?
    decreases |s|
  {
    hide SkipSpace, SelectAt, SelectsAt, AfterByte, NextIs;
    SelectsStep(s);
    var t := SkipSpace(s);
    if !AtEnd(t, CLOSE_BRACE) {
      SelectsRest(AfterByte(SelectAt(t).rest, COMMA));
    } else {
      EndsInClose(t, CLOSE_BRACE);
    }
  }

  lemma {:induction false} SelectClose(t: Bytes) returns (e: Bytes)
    requires Closing(SelectsAt(t), CLOSE_BRACE) == Failed(Ended)
    ensures Stop(e) && Closing(SelectsAt(t + e), CLOSE_BRACE) == Failed(WRONG)
    decreases |t|, 3
  {
    hide SelectsAt;
    if SelectsAt(t).Failed? {
      e := SelectsEnded(t);
    } else {
      e := [0];
      SelectsGo(t, e);
      SelectsRest(t);
    }
  }

  lemma {:induction false} SelectEnded(s: Bytes) returns (e: Bytes)
    requires SelectAt(s) == Failed(Ended)
    ensures Stop(e) && Halted(SelectAt(s + e))
    decreases |s|, 0
  {
    hide HeadAt, SelectAt, SelectTail;
    SelectIs(s);
    if HeadAt(s).Failed? {
      e := HeadEnded(s);
      if HeadAt(s + e).Done? { WrongSelectTail(HeadAt(s + e).value); }
    } else {
      e := SelectTailEnded(HeadAt(s).value, HeadAt(s).rest);
      HeadGoes(s, e);
    }
    SelectIs(s + e);
  }

  lemma {:induction false} SelectTailEnded(head: Select, r: Bytes) returns (e: Bytes)
    requires SelectTail(head, r) == Failed(Ended)
    ensures Stop(e) && SelectTail(head, r + e) == Failed(WRONG)
    decreases |r|, 4
  {
    hide SkipSpace, SelectsAt, NextIs, AfterByte, Closing;
    e := SelectClose(AfterByte(r, OPEN_BRACE));
    ByteStop(r, OPEN_BRACE, e);
  }

  lemma {:induction false} SelectsEnded(s: Bytes) returns (e: Bytes)
    requires SelectsAt(s) == Failed(Ended)
    ensures Stop(e) && SelectsAt(s + e) == Failed(WRONG)
    decreases |s|, 2
  {
    hide SkipSpace, SelectAt, SelectsAt, AfterByte, NextIs, AtEnd;
    SelectsStep(s);
    SpaceShorter(s);
    var t := SkipSpace(s);
    if SelectAt(t).Failed? {
      e := SelectEnded(t);
    } else {
      e := SelectsEnded(AfterByte(SelectAt(t).rest, COMMA));
      SelectGoes(t, e);
      ByteStop(SelectAt(t).rest, COMMA, e);
    }
    SelectsStep(s + e);
    SpaceLocal(s, e);
    StopAhead(e);
    EndStop(t, CLOSE_BRACE, e);
    WrongTail();
    if t == [] { ListEnds(t, CLOSE_BRACE); }
    WrongSelect();
  }

  lemma QueryEnded(s: Bytes) returns (e: Bytes)
    requires QueryAt(s) == Failed(Ended)
    ensures Stop(e) && QueryAt(s + e) == Failed(WRONG)
  {
    hide SkipSpace, SelectsAt, ExpectAt, Closing;
    QueryIs(s);
    if ExpectAt(s, OPEN_BRACE).Failed? {
      e := [0];
    } else {
      e := SelectClose(ExpectAt(s, OPEN_BRACE).rest);
    }
    ExpectGoes(s, OPEN_BRACE, e);
    QueryIs(s + e);
  }

  //
  // When which error is reported
  //

  function Outcome(input: Bytes): Result<Query, QueryError> {
    match QueryAt(input)
    case Done(q, _) => Ok(q)
    case Failed(f) => Err(Located(f, |input|))
  }

  /** Every input that starts this way has this error. */
  ghost predicate Doomed(start: Bytes, e: QueryError) {
    forall input :: start <= input ==> Outcome(input) == Err(e)
  }

  /** Nothing is wrong so far: it is a query, or all that is reported is its end. */
  predicate Open(start: Bytes) {
    Outcome(start).Ok? || Outcome(start) == Err(UnexpectedEnd)
  }

  /** The same error, whatever comes after `x`. */
  lemma ErrorStays(x: Bytes, y: Bytes, z: Bytes)
    requires QueryAt(x + y).Failed? && Inside(QueryAt(x + y).fault, |y|)
    ensures Outcome(x + z) == Outcome(x + y)
  {
    hide QueryAt, PointsInto;
    QueryLocal(x, y, z);
    QueryWithin(x + y);
    FaultLeft(QueryAt(x + y).fault, x + y);
  }

  lemma FaultLeft(f: Fault, s: Bytes)
    requires PointsInto(f, s)
    ensures !f.Ended? ==> 0 < f.left <= |s|
  {
    hide SkipSpace;
  }

  /** Before the place of an error nothing is wrong. */
  lemma OpenBefore(input: Bytes, n: nat)
    requires QueryAt(input).Failed? && !QueryAt(input).fault.Ended? && n <= |input|
    requires n + QueryAt(input).fault.left <= |input|
    ensures Open(input[..n])
  {
    hide QueryAt, PointsInto;
    var x, z := input[..n], input[n..];
    assert x + z == input && x + [] == x;
    if QueryAt(x).Failed? && !QueryAt(x).fault.Ended? {
      QueryLocal(x, [], z);
      QueryWithin(x);
      FaultLeft(QueryAt(x).fault, x);
    }
  }

  /**
    * Which error is reported. A character: nothing is wrong before it, and with it every continuation has that error.
    * A number that is too great, or an unknown filter: nothing is wrong before it, and no continuation helps. The end:
    * at a further byte that fits nothing, after the quote that closes a name that is open, it is that byte that is
    * wrong.
    */
  lemma FirstError(input: Bytes)
    requires QueryAt(input).Failed?
    ensures
      match QueryAt(input).fault
      case BadChar(b, left) =>
        var at := |input| - left;
        && 0 <= at < |input| && Outcome(input) == Err(UnexpectedChar(input[at], at))
        && Open(input[..at]) && Doomed(input[..at + 1], UnexpectedChar(input[at], at))
      case TooGreat(left) =>
        var at := |input| - left;
        && 0 <= at < |input| && Outcome(input) == Err(UnexpectedChar(63, at)) && IsDigit(input[at])
        && Open(input[..at]) && Doomed(input, UnexpectedChar(63, at))
      case BadFilter(kw, left) =>
        var at := |input| - left;
        && 0 <= at < |input| && Outcome(input) == Err(UnknownFilter(kw, at))
        && Open(input[..at]) && Doomed(input, UnknownFilter(kw, at))
      case Ended =>
        && Outcome(input) == Err(UnexpectedEnd)
        && (Outcome(input + [0]) == Err(UnexpectedChar(0, |input|))
            || Outcome(input + [QUOTE, 0]) == Err(UnexpectedChar(0, |input| + 1)))
  {
    QueryWithin(input);
    hide QueryAt, SkipSpace;
    var f := QueryAt(input).fault;
    if f.Ended? {
      var e := QueryEnded(input);
    } else {
      FaultLeft(f, input);
      var at := |input| - f.left;
      OpenBefore(input, at);
      var n := if f.BadChar? then at + 1 else |input|;
      var x, y := input[..n], input[n..];
      assert x + y == input;
      assert f.BadChar? ==> input[..at + 1] == x;
      assert !f.BadChar? ==> x == input;
      forall t | x <= t ensures Outcome(t) == Outcome(input) {
        assert t == x + t[n..];
        ErrorStays(x, y, t[n..]);
      }
    }
  }

  /** The end is reported exactly where that is so, and the input is no query. */
  lemma EndedIff(input: Bytes)
    ensures Outcome(input) == Err(UnexpectedEnd)
            <==> !Outcome(input).Ok?
                 && (Outcome(input + [0]) == Err(UnexpectedChar(0, |input|))
                     || Outcome(input + [QUOTE, 0]) == Err(UnexpectedChar(0, |input| + 1)))
  {
    if QueryAt(input).Failed? {
      var f := QueryAt(input).fault;
      FirstError(input);
      hide QueryAt;
      if !f.Ended? {
        QueryWithin(input);
        FaultLeft(f, input);
        assert input + [] == input;
        ErrorStays(input, [], [0]);
        ErrorStays(input, [], [QUOTE, 0]);
      }
    }
  }

  lemma FirstByte(space: Bytes, b: Byte, rest: Bytes)
    requires AllSpace(space) && !IsSpace(b) && b != OPEN_BRACE
    ensures Outcome(space + [b] + rest) == Err(UnexpectedChar(b, |space|))
  {
    hide *;
    var s, t := space + [b] + rest, [b] + rest;
    ByteAfter(space, b, rest);
    WrongBrace(s, t);
    assert |s| - |t| == |space|;
  }

  lemma WrongBrace(s: Bytes, t: Bytes)
    requires SkipSpace(s) == t && t != [] && t[0] != OPEN_BRACE && |t| <= |s|
    ensures Outcome(s) == Err(UnexpectedChar(t[0], |s| - |t|))
  {
    hide SkipSpace, SelectsAt;
  }
}
