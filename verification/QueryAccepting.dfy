/** Whatever the parser accepts is a well-formed query text. */
module QueryAccepting {
  import opened ByteStrings
  import opened QueryTexts
  import opened QueryParsers
  import opened QueryReading

  //
  // Runs of bytes
  //

  lemma {:induction false} SpaceOf(s: Bytes) returns (space: Bytes)
    ensures AllSpace(space) && s == space + SkipSpace(s)
    ensures SkipSpace(s) != [] ==> !IsSpace(SkipSpace(s)[0])
  {
    hide IsSpace;
    if s == [] || !IsSpace(s[0]) {
      space := [];
    } else {
      var tail := s[1..];
      var more := SpaceOf(tail);
      space := [s[0]] + more;
      assert SkipSpace(s) == SkipSpace(tail);
      hide SkipSpace;
      assert s == [s[0]] + tail;
      Assoc([s[0]], more, SkipSpace(tail));
    }
  }

  lemma {:induction false} WordOfRun(s: Bytes)
    ensures AllWord(s[..WordLength(s)]) && !StartsWord(s[WordLength(s)..])
  {
    if s != [] && IsWord(s[0]) {
      WordOfRun(s[1..]);
      var n := WordLength(s[1..]);
      assert s[..n + 1] == [s[0]] + s[1..][..n] && s[n + 1..] == s[1..][n..];
    }
  }

  lemma {:induction false} QuoteOfRun(s: Bytes)
    ensures QUOTE !in s[..QuoteLength(s)] && (QuoteLength(s) < |s| ==> s[QuoteLength(s)] == QUOTE)
  {
    if s != [] && s[0] != QUOTE {
      QuoteOfRun(s[1..]);
      var n := QuoteLength(s[1..]);
      assert s[..n + 1] == [s[0]] + s[1..][..n];
    }
  }

  lemma Rejoined(s: Bytes, n: nat)
    requires n <= |s|
    ensures s[..n] + s[n..] == s
  {
  }

  /** The white space before an expected byte. */
  lemma SpaceBefore(s: Bytes, b: Byte) returns (space: Bytes)
    requires NextIs(s, b)
    ensures AllSpace(space) && s == space + [b] + AfterByte(s, b)
  {
    hide SpaceLength;
    space := SpaceOf(s);
    var t := SkipSpace(s);
    assert t == [t[0]] + t[1..];
  }

  lemma ExpectedNext(s: Bytes, b: Byte)
    requires ExpectAt(s, b).Done?
    ensures NextIs(s, b) && AfterByte(s, b) == ExpectAt(s, b).rest
  {
    hide SkipSpace;
  }

  //
  // Names and filters
  //

  lemma QuotedAccepted(t: Bytes, space: Bytes) returns (n: NameText)
    requires t != [] && t[0] == QUOTE && QuotedAt(t[1..]).Done? && AllSpace(space)
    ensures ValidName(n) && n.Quoted? && n.text == QuotedAt(t[1..]).value
    ensures space + t == NameBytes(n) + QuotedAt(t[1..]).rest
  {
    var u := t[1..];
    QuoteOfRun(u);
    hide QuoteLength, AllSpace;
    var text, rest := u[..QuoteLength(u)], u[QuoteLength(u) + 1..];
    n := Quoted(space, text);
    assert u == text + [QUOTE] + rest;
    assert t == [QUOTE] + u;
    QuotedJoined(space, text, rest);
  }

  lemma QuotedJoined(space: Bytes, text: Bytes, rest: Bytes)
    ensures space + ([QUOTE] + (text + [QUOTE] + rest)) == (space + [QUOTE] + text + [QUOTE]) + rest
  {
  }

  lemma NameAccepted(s: Bytes) returns (n: NameText)
    requires NameAt(s).Done?
    ensures ValidName(n) && n.text == NameAt(s).value && s == NameBytes(n) + NameAt(s).rest
    ensures n.Bare? ==> !StartsWord(NameAt(s).rest)
  {
    hide SkipSpace, QuoteLength, WordLength, QuotedAt;
    var space := SpaceOf(s);
    var t := SkipSpace(s);
    if t[0] == QUOTE {
      n := QuotedAccepted(t, space);
    } else {
      WordOfRun(t);
      Rejoined(t, WordLength(t));
      n := Bare(space, t[..WordLength(t)]);
      assert t[..WordLength(t)] != [] by { SomeWord(t); }
      assert s == space + t[..WordLength(t)] + t[WordLength(t)..];
    }
  }

  lemma SomeWord(t: Bytes)
    requires StartsWord(t)
    ensures WordLength(t) > 0
  {
  }

  lemma NumberAccepted(s: Bytes) returns (a: Argument)
    requires NumberAt(s).Done?
    ensures a.Digits? && ValidArgument(a) && Decimal(a.text) == NumberAt(s).value
        && s == ArgumentBytes(a) + NumberAt(s).rest
    ensures !StartsDigit(NumberAt(s).rest)
  {
    hide SkipSpace, DigitLength, Decimal;
    var space := SpaceOf(s);
    var t := SkipSpace(s);
    DigitsAre(t);
    Rejoined(t, DigitLength(t));
    a := Digits(space, t[..DigitLength(t)]);
    assert s == space + t[..DigitLength(t)] + t[DigitLength(t)..];
  }

  lemma KeywordAccepted(s: Bytes) returns (space: Bytes, colonSpace: Bytes, kw: Bytes, rest: Bytes)
    requires FilterAt(s).Done?
    ensures AllSpace(space) && AllSpace(colonSpace) && s == space + kw + colonSpace + [COLON] + rest
    ensures kw in [SKIP, TAKE, AFTER, BEFORE]
    ensures kw in [SKIP, TAKE] ==>
      && NumberAt(rest).Done? && FilterAt(s).rest == NumberAt(rest).rest
      && FilterAt(s).value == if kw == SKIP then Skip(NumberAt(rest).value) else Take(NumberAt(rest).value)
    ensures kw in [AFTER, BEFORE] ==>
      && NameAt(rest).Done? && FilterAt(s).rest == NameAt(rest).rest
      && FilterAt(s).value == if kw == AFTER then After(NameAt(rest).value) else Before(NameAt(rest).value)
  {
    hide SkipSpace, LetterLength, NumberAt, NameAt, ExpectAt, AfterByte, NextIs;
    space := SpaceOf(s);
    var t := SkipSpace(s);
    kw := t[..LetterLength(t)];
    var u := t[LetterLength(t)..];
    Rejoined(t, LetterLength(t));
    ExpectedNext(u, COLON);
    colonSpace := SpaceBefore(u, COLON);
    rest := AfterByte(u, COLON);
  }

  lemma FilterAccepted(s: Bytes) returns (f: FilterText)
    requires FilterAt(s).Done?
    ensures ValidFilter(f) && f.comma == None && FilterOf(f) == FilterAt(s).value
        && s == FilterBytes(f) + FilterAt(s).rest
    ensures ArgumentEnds(f.argument, FilterAt(s).rest)
  {
    hide FilterAt, NumberAt, NameAt, Decimal, NameBytes, ValidName;
    var space, colonSpace, kw, rest := KeywordAccepted(s);
    var argument;
    if kw in [SKIP, TAKE] {
      argument := NumberAccepted(rest);
      f := FilterText(space, if kw == SKIP then SkipWord else TakeWord, colonSpace, argument, None);
    } else {
      var name := NameAccepted(rest);
      argument := Named(name);
      f := FilterText(space, if kw == AFTER then AfterWord else BeforeWord, colonSpace, argument, None);
    }
    assert WordOf(f.keyword) == kw;
    hide WordOf;
    FilterJoined(space, kw, colonSpace, ArgumentBytes(argument), FilterAt(s).rest);
  }

  lemma FilterJoined(a: Bytes, b: Bytes, c: Bytes, d: Bytes, rest: Bytes)
    ensures a + b + c + [COLON] + (d + rest) == a + b + c + [COLON] + d + rest
  {
  }

  /** The comma after an item, or none. */
  lemma CommaAccepted(r: Bytes) returns (comma: Option<Bytes>, next: Bytes)
    ensures ValidComma(comma) && r == CommaBytes(comma) + next
    ensures comma.Some? <==> NextIs(r, COMMA)
    ensures if comma.Some? then next == AfterByte(r, COMMA) else next == r && AfterByte(r, COMMA) == SkipSpace(r)
  {
    hide SkipSpace;
    if NextIs(r, COMMA) {
      var space := SpaceBefore(r, COMMA);
      comma, next := Some(space), AfterByte(r, COMMA);
    } else {
      comma, next := None, r;
      assert [] + r == r;
    }
  }

  lemma FilterTextSpace(f: FilterText, rest: Bytes)
    requires ValidFilter(f) && !StartsWord(FilterBytes(f) + rest)
    ensures f.space != []
  {
    KeywordLetters(f.keyword);
    FilterParts(f, rest);
  }

  lemma {:induction false} FiltersAccepted(s: Bytes) returns (items: seq<FilterText>, tail: Bytes)
    requires FiltersAt(s).Done?
    ensures ValidFilters(items) && FiltersOf(items) == FiltersAt(s).value
    ensures s == FiltersBytes(items) + tail && FiltersAt(s).rest == SkipSpace(tail) && AtEnd(tail, CLOSE_PAREN)
    decreases |s|
  {
    hide SkipSpace, FilterAt, FiltersAt, AfterByte, NextIs, FilterBytes, ValidFilter, FilterOf;
    FiltersStep(s);
    AtEndTwice(s, CLOSE_PAREN);
    if AtEnd(s, CLOSE_PAREN) {
      items, tail := [], s;
      assert [] + s == s;
    } else {
      FilterAfterSpace(s);
      var f := FilterAccepted(s);
      var r := FilterAt(s).rest;
      var comma, next := CommaAccepted(r);
      FiltersAfterSpace(next);
      var more;
      more, tail := FiltersAccepted(next);
      var first := f.(comma := comma);
      FilterWithComma(f, comma);
      items := [first] + more;
      assert items[1..] == more;
      Joined(FilterBytes(f), CommaBytes(comma), FiltersBytes(more), tail);
      if comma.None? && more != [] {
        AfterFilterIs(more, tail);
        if f.argument.Named? && f.argument.name.Bare? { FilterTextSpace(more[0], AfterFilter(more, tail)); }
      }
    }
  }

  lemma Joined(a: Bytes, b: Bytes, c: Bytes, d: Bytes)
    ensures a + (b + (c + d)) == a + b + c + d
  {
  }

  lemma FilterWithComma(f: FilterText, comma: Option<Bytes>)
    requires ValidFilter(f)
    ensures ValidFilter(f.(comma := comma)) && FilterBytes(f.(comma := comma)) == FilterBytes(f)
    ensures FilterOf(f.(comma := comma)) == FilterOf(f)
  {
  }

  lemma FilterListAccepted(s: Bytes) returns (fs: Option<FilterList>, tail: Bytes)
    requires FilterListAt(s).Done?
    ensures fs.Some? ==> AllSpace(fs.value.space) && AllSpace(fs.value.closeSpace) && ValidFilters(fs.value.items)
    ensures FilterListAt(s).value == if fs.Some? then FiltersOf(fs.value.items) else []
    ensures s == FilterListBytes(fs) + tail && FilterListAt(s).rest == if fs.Some? then tail else SkipSpace(tail)
    ensures fs.None? ==> !NextIs(tail, OPEN_PAREN)
  {
    hide SkipSpace, FiltersAt, AfterByte, NextIs, FiltersBytes, FiltersOf, ValidFilters, ExpectAt, AtEnd;
    if NextIs(s, OPEN_PAREN) {
      var space := SpaceBefore(s, OPEN_PAREN);
      var items, inner := FiltersAccepted(AfterByte(s, OPEN_PAREN));
      ExpectedNext(SkipSpace(inner), CLOSE_PAREN);
      ByteAfterSpace(inner, CLOSE_PAREN);
      var closeSpace := SpaceBefore(inner, CLOSE_PAREN);
      tail := AfterByte(inner, CLOSE_PAREN);
      fs := Some(FilterList(space, items, closeSpace));
      ListJoined(space, OPEN_PAREN, FiltersBytes(items), closeSpace, CLOSE_PAREN, tail);
    } else {
      NoByteNext(s, OPEN_PAREN);
      fs, tail := None, s;
      assert [] + s == s;
    }
  }

  lemma ListJoined(a: Bytes, open: Byte, b: Bytes, c: Bytes, close: Byte, d: Bytes)
    ensures a + [open] + (b + (c + [close] + d)) == (a + [open] + b + c + [close]) + d
  {
  }

  lemma AliasAccepted(name: NameText, s: Bytes) returns (a: Option<AliasText>, tail: Bytes)
    requires AliasAt(s).Done? && ValidName(name) && (name.Bare? ==> !StartsWord(s))
    ensures a.Some? ==> ValidAlias(name, a.value)
    ensures AliasAt(s).value == if a.Some? then Some(a.value.name.text) else None
    ensures s == AliasBytes(a) + tail && AliasAt(s).rest == if a.Some? then tail else SkipSpace(tail)
    ensures a.None? ==> tail == s && !KeywordNext(tail, AS)
    ensures a.Some? && a.value.name.Bare? ==> !StartsWord(tail)
  {
    hide SkipSpace, NameAt, NameBytes, ValidName, AllSpace;
    if KeywordNext(s, AS) {
      var space := SpaceOf(s);
      var t := SkipSpace(s);
      var u := t[2..];
      assert t == AS + u;
      var n := NameAccepted(u);
      tail := NameAt(u).rest;
      a := Some(AliasText(space, n));
      assert s == space + AS + NameBytes(n) + tail;
      NameNotWord(n, tail);
      if space == [] { assert s == t; }
    } else {
      a, tail := None, s;
      assert [] + s == s;
    }
  }

  lemma NameNotWord(n: NameText, rest: Bytes)
    requires ValidName(n) && !StartsWord(NameBytes(n) + rest)
    ensures n.Bare? ==> n.space != []
  {
    if n.Bare? { assert NameBytes(n) + rest == n.space + (n.text + rest); }
  }

  lemma HeadAccepted(s: Bytes) returns (x: SelectText, tail: Bytes)
    requires HeadAt(s).Done?
    ensures ValidSelect(x) && x.subselects.None? && x.comma.None? && SelectOf(x) == HeadAt(s).value
    ensures s == SelectBytes(x) + tail && HeadAt(s).rest == if x.filters.Some? then tail else SkipSpace(tail)
    ensures EndsInName(x) ==>
      && (LastName(x).Bare? ==> !StartsWord(tail)) && (x.alias.None? ==> !KeywordNext(tail, AS))
      && !NextIs(tail, OPEN_PAREN)
  {
    hide SkipSpace, NameAt, AliasAt, FilterListAt, NameBytes, AliasBytes, FilterListBytes, ValidName, ValidAlias,
      AllSpace,
      FiltersOf, ValidFilters, KeywordNext, NextIs;
    var name := NameAccepted(s);
    var r := NameAt(s).rest;
    var alias, t := AliasAccepted(name, r);
    FilterListAfterSpace(t);
    var fs;
    fs, tail := FilterListAccepted(t);
    x := SelectText(name, alias, fs, None, None);
    HeadJoined(NameBytes(name), AliasBytes(alias), FilterListBytes(fs), tail);
    if fs.None? { assert t == tail by { NoFilters(fs, tail); } }
  }

  lemma NoFilters(fs: Option<FilterList>, tail: Bytes)
    requires fs.None?
    ensures FilterListBytes(fs) + tail == tail
  {
  }

  lemma HeadJoined(a: Bytes, b: Bytes, c: Bytes, tail: Bytes)
    ensures a + (b + (c + tail)) == (a + b + c + []) + tail
  {
  }

  lemma WithSubselects(x: SelectText, l: SelectList, rest: Bytes)
    requires ValidSelect(x) && x.subselects.None? && ValidList(l)
    ensures
      var y := x.(subselects := Some(l));
      && ValidSelect(y) && SelectOf(y) == SelectOf(x).(subselects := ListOf(l))
      && SelectBytes(y) + rest == SelectBytes(x) + (SelectListBytes(l) + rest)
  {
    hide NameBytes, AliasBytes, FilterListBytes, SelectListBytes, ValidList, ListOf, FiltersOf, ValidName,
      ValidFilters, AllSpace;
    var head := NameBytes(x.name) + AliasBytes(x.alias) + FilterListBytes(x.filters);
    assert head + [] == head;
  }

  lemma {:induction false} SelectAccepted(s: Bytes) returns (x: SelectText, tail: Bytes)
    requires SelectAt(s).Done?
    ensures ValidSelect(x) && x.comma.None? && SelectOf(x) == SelectAt(s).value
    ensures s == SelectBytes(x) + tail && SelectAt(s).rest == if x.subselects.Some? then tail else SkipSpace(tail)
    ensures SelectEnds(x, tail)
    decreases |s|, 0
  {
    hide SkipSpace, HeadAt, SelectsAt, NextIs, KeywordNext, AfterByte, SelectBytes, SelectOf, SelectsOf, ValidSelects,
      ValidSelect, ExpectAt, SelectsBytes, AtEnd, AllSpace;
    var head, r := HeadAccepted(s);
    ByteAfterSpace(r, OPEN_BRACE);
    if NextIs(r, OPEN_BRACE) {
      var space := SpaceBefore(r, OPEN_BRACE);
      ExpectedNext(SelectsAt(AfterByte(r, OPEN_BRACE)).rest, CLOSE_BRACE);
      var items, inner := SelectsAccepted(AfterByte(r, OPEN_BRACE));
      ByteAfterSpace(inner, CLOSE_BRACE);
      var closeSpace := SpaceBefore(inner, CLOSE_BRACE);
      tail := AfterByte(inner, CLOSE_BRACE);
      var l := SelectList(space, items, closeSpace);
      ListJoined(space, OPEN_BRACE, SelectsBytes(items), closeSpace, CLOSE_BRACE, tail);
      WithSubselects(head, l, tail);
      x := head.(subselects := Some(l));
    } else {
      NoByteNext(r, OPEN_BRACE);
      x, tail := head, r;
      SkipTwice(r);
    }
  }

  lemma SelectWithComma(x: SelectText, comma: Option<Bytes>)
    requires ValidSelect(x)
    ensures
      var y := x.(comma := comma);
      ValidSelect(y) && SelectBytes(y) == SelectBytes(x) && SelectOf(y) == SelectOf(x)
  {
  }

  lemma {:induction false} SelectsAccepted(s: Bytes) returns (items: seq<SelectText>, tail: Bytes)
    requires SelectsAt(s).Done? && NextIs(SelectsAt(s).rest, CLOSE_BRACE)
    ensures ValidSelects(items) && SelectsOf(items) == SelectsAt(s).value
    ensures s == SelectsBytes(items) + tail && SelectsAt(s).rest == SkipSpace(tail) && NextIs(tail, CLOSE_BRACE)
    decreases |s|, 1
  {
    hide SkipSpace, SelectAt, SelectsAt, AfterByte, NextIs, SelectBytes, ValidSelect, SelectOf;
    SelectsStep(s);
    AtEndTwice(s, CLOSE_BRACE);
    if AtEnd(s, CLOSE_BRACE) {
      ByteAfterSpace(s, CLOSE_BRACE);
      items, tail := [], s;
      assert [] + s == s;
    } else {
      SelectAfterSpace(s);
      var x, r := SelectAccepted(s);
      ByteAfterSpace(r, COMMA);
      var comma, next := CommaAccepted(r);
      SelectsAfterSpace(next);
      assert |next| < |s| by { SelectNotEmpty(x); }
      var more;
      more, tail := SelectsAccepted(next);
      var first := x.(comma := comma);
      SelectWithComma(x, comma);
      items := [first] + more;
      assert items[1..] == more;
      Joined(SelectBytes(x), CommaBytes(comma), SelectsBytes(more), tail);
      if comma.None? && more != [] { ItemsApart(x, more, tail); }
    }
  }

  lemma SelectNotEmpty(x: SelectText)
    requires ValidSelect(x)
    ensures |SelectBytes(x)| > 0
  {
    assert |NameBytes(x.name)| > 0;
    hide NameBytes, AliasBytes, FilterListBytes, SubselectBytes;
  }

  /** Selects that the parser told apart are well-formed side by side. */
  lemma ItemsApart(x: SelectText, more: seq<SelectText>, tail: Bytes)
    requires ValidSelects(more) && more != [] && NextIs(tail, CLOSE_BRACE)
    requires SelectEnds(x, SelectsBytes(more) + tail)
    ensures SelectApart(x, more[0])
  {
    hide SelectBytes, ValidSelect, SkipSpace, KeywordNext, NextIs;
    EachEnds(more, tail);
    AfterSelectIs(more, tail);
    SelectAhead(more[0], AfterSelect(more, tail));
  }

  /** Whatever is accepted is a well-formed text of the query that was read. */
  lemma InputAccepted(input: Bytes) returns (q: QueryText)
    requires QueryAt(input).Done?
    ensures ValidQuery(q) && QueryBytes(q) == input && QueryOf(q) == QueryAt(input).value
  {
    hide SkipSpace, SelectsAt, AfterByte, NextIs, ExpectAt, SelectsOf, ValidSelects, SelectsBytes, AllSpace;
    ExpectedNext(input, OPEN_BRACE);
    var space := SpaceBefore(input, OPEN_BRACE);
    var t := AfterByte(input, OPEN_BRACE);
    ExpectedNext(SelectsAt(t).rest, CLOSE_BRACE);
    var items, inner := SelectsAccepted(t);
    ByteAfterSpace(inner, CLOSE_BRACE);
    var closeSpace := SpaceBefore(inner, CLOSE_BRACE);
    var rest := AfterByte(inner, CLOSE_BRACE);
    var endSpace := SpaceOf(rest);
    q := QueryText(SelectList(space, items, closeSpace), endSpace);
    ListJoined(space, OPEN_BRACE, SelectsBytes(items), closeSpace, CLOSE_BRACE, rest);
    assert endSpace + [] == endSpace;
  }
}
