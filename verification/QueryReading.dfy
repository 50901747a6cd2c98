/** Every well-formed query text parses to its meaning. */
module QueryReading {
  import opened ByteStrings
  import opened QueryTexts
  import opened QueryParsers

  //
  // Runs of bytes
  //

  lemma {:induction false} SpaceThen(space: Bytes, s: Bytes)
    requires AllSpace(space)
    ensures SkipSpace(space + s) == SkipSpace(s)
  {
    if space == [] {
      assert space + s == s;
    } else {
      assert (space + s)[1..] == space[1..] + s;
      SpaceThen(space[1..], s);
      assert SkipSpace(space + s) == SkipSpace(space[1..] + s);
    }
  }

  lemma {:induction false} WordRun(word: Bytes, rest: Bytes)
    requires AllWord(word) && !StartsWord(rest)
    ensures WordLength(word + rest) == |word|
  {
    if word == [] {
      assert word + rest == rest;
    } else {
      assert (word + rest)[1..] == word[1..] + rest;
      WordRun(word[1..], rest);
    }
  }

  lemma {:induction false} DigitRun(digits: Bytes, rest: Bytes)
    requires AllDigits(digits) && !StartsDigit(rest)
    ensures DigitLength(digits + rest) == |digits|
  {
    if digits == [] {
      assert digits + rest == rest;
    } else {
      assert (digits + rest)[1..] == digits[1..] + rest;
      DigitRun(digits[1..], rest);
    }
  }

  lemma {:induction false} LetterRun(letters: Bytes, rest: Bytes)
    requires (forall i :: 0 <= i < |letters| ==> IsLetter(letters[i])) && (rest == [] || !IsLetter(rest[0]))
    ensures LetterLength(letters + rest) == |letters|
  {
    if letters == [] {
      assert letters + rest == rest;
    } else {
      assert (letters + rest)[1..] == letters[1..] + rest;
      LetterRun(letters[1..], rest);
    }
  }

  lemma {:induction false} QuoteRun(text: Bytes, rest: Bytes)
    requires QUOTE !in text
    ensures QuoteLength(text + [QUOTE] + rest) == |text|
  {
    var s := text + [QUOTE] + rest;
    if text != [] {
      assert s[1..] == text[1..] + [QUOTE] + rest;
      QuoteRun(text[1..], rest);
    }
  }

  lemma Cut<T>(a: seq<T>, b: seq<T>)
    ensures (a + b)[..|a|] == a && (a + b)[|a|..] == b
  {
  }

  lemma NoSpaceBefore(s: Bytes)
    requires s != [] && !IsSpace(s[0])
    ensures SkipSpace(s) == s
  {
  }

  /** A byte after white space. */
  lemma ByteAfter(space: Bytes, b: Byte, rest: Bytes)
    requires AllSpace(space) && !IsSpace(b)
    ensures
      var s := space + [b] + rest;
      && SkipSpace(s) == [b] + rest && NextIs(s, b) && AfterByte(s, b) == rest && ExpectAt(s, b) == Done((), rest)
      && (forall x :: x != b ==> !NextIs(s, x))
      && (!IsWord(b) ==> !StartsWord(s) && !KeywordNext(s, AS))
  {
    var s := space + [b] + rest;
    assert s == space + ([b] + rest);
    SpaceThen(space, [b] + rest);
    assert ([b] + rest)[1..] == rest;
  }

  //
  // Names and filters
  //

  lemma QuotedParses(text: Bytes, rest: Bytes)
    requires QUOTE !in text
    ensures NameAt([QUOTE] + text + [QUOTE] + rest) == Done(text, rest)
  {
    hide QuoteLength, SkipSpace;
    var t := [QUOTE] + text + [QUOTE] + rest;
    var u := text + [QUOTE] + rest;
    assert t == [QUOTE] + u;
    NoSpaceBefore(t);
    Cut([QUOTE], u);
    QuoteRun(text, rest);
    Cut(text, [QUOTE] + rest);
    assert u == text + ([QUOTE] + rest);
  }

  lemma BareParses(text: Bytes, rest: Bytes)
    requires text != [] && IsLetter(text[0]) && AllWord(text) && !StartsWord(rest)
    ensures NameAt(text + rest) == Done(text, rest)
  {
    hide WordLength, SkipSpace, AllWord;
    NoSpaceBefore(text + rest);
    WordRun(text, rest);
    Cut(text, rest);
  }

  lemma NameAfterSpace(s: Bytes)
    ensures NameAt(SkipSpace(s)) == NameAt(s)
  {
    hide QuotedAt, BareAt, SkipSpace;
    SkipTwice(s);
  }

  lemma NameParses(n: NameText, rest: Bytes)
    requires ValidName(n) && (n.Bare? ==> !StartsWord(rest))
    ensures NameAt(NameBytes(n) + rest) == Done(n.text, rest)
  {
    hide NameAt, SkipSpace, AllWord;
    var t := match n case Quoted(_, text) => [QUOTE] + text + [QUOTE] + rest case Bare(_, text) => text + rest;
    assert NameBytes(n) + rest == n.space + t;
    SpaceThen(n.space, t);
    NameAfterSpace(n.space + t);
    NameAfterSpace(t);
    if n.Quoted? { QuotedParses(n.text, rest); } else { BareParses(n.text, rest); }
  }

  /** What a name looks like to the rest of the parser. */
  lemma NameAhead(n: NameText, rest: Bytes)
    requires ValidName(n) && (n.Bare? ==> !StartsWord(rest))
    ensures
      var s := NameBytes(n) + rest;
      && SkipSpace(s) != [] && (forall b :: b != QUOTE && !IsLetter(b) ==> !NextIs(s, b))
      && (StartsWord(s) <==> n.Bare? && n.space == [])
      && (KeywordNext(s, AS) <==> n.Bare? && n.text == AS)
  {
    var t := match n case Quoted(_, text) => [QUOTE] + text + [QUOTE] + rest case Bare(_, text) => text + rest;
    assert NameBytes(n) + rest == n.space + t;
    SpaceThen(n.space, t);
    assert SkipSpace(t) == t;
    if n.Bare? {
      Cut(n.text, rest);
      if AS <= t { AsAhead(n.text, rest); }
    }
    hide SpaceLength;
  }

  lemma AsAhead(text: Bytes, rest: Bytes)
    requires text != [] && AllWord(text) && !StartsWord(rest) && AS <= text + rest
    ensures StartsWord((text + rest)[2..]) <==> text != AS
  {
    var t := text + rest;
    Cut(text, rest);
    assert t[..2] == AS && t[1] == AS[1];
    assert |text| > 2 ==> t[2] == text[2];
  }

  lemma NumberParses(space: Bytes, digits: Bytes, rest: Bytes)
    requires AllSpace(space) && digits != [] && AllDigits(digits) && Decimal(digits) < USIZE_LIMIT && !StartsDigit(rest)
    ensures NumberAt(space + digits + rest) == Done(Decimal(digits), rest)
  {
    var t := digits + rest;
    assert space + digits + rest == space + t;
    SpaceThen(space, t);
    DigitRun(digits, rest);
    Cut(digits, rest);
    assert SkipSpace(t) == t;
    hide Decimal, SpaceLength, DigitLength;
  }

  /** The argument is not continued by what follows. */
  predicate ArgumentEnds(a: Argument, rest: Bytes) {
    if a.Digits? then !StartsDigit(rest) else a.name.Bare? ==> !StartsWord(rest)
  }

  lemma KeywordLetters(k: Keyword)
    ensures WordOf(k) != [] && forall i :: 0 <= i < |WordOf(k)| ==> IsLetter(WordOf(k)[i])
  {
  }

  lemma FilterParts(f: FilterText, rest: Bytes)
    ensures FilterBytes(f) + rest
            == f.space + (WordOf(f.keyword) + (f.colonSpace + [COLON] + (ArgumentBytes(f.argument) + rest)))
  {
  }

  lemma ArgumentParses(a: Argument, rest: Bytes)
    requires ValidArgument(a) && ArgumentEnds(a, rest)
    ensures
      match a
      case Digits(_, text) => NumberAt(ArgumentBytes(a) + rest) == Done(Decimal(text), rest)
      case Named(name) => NameAt(ArgumentBytes(a) + rest) == Done(name.text, rest)
  {
    match a
    case Digits(space, text) => NumberParses(space, text, rest);
    case Named(name) => NameParses(name, rest);
  }

  lemma FilterParses(f: FilterText, rest: Bytes)
    requires ValidFilter(f) && ArgumentEnds(f.argument, rest)
    ensures FilterAt(FilterBytes(f) + rest) == Done(FilterOf(f), rest)
  {
    hide SpaceLength, LetterLength, SkipSpace, NameAt, NumberAt, ExpectAt, Decimal, NameBytes, ArgumentBytes,
      FilterBytes,
      ValidArgument, ArgumentEnds;
    var word, argument := WordOf(f.keyword), ArgumentBytes(f.argument) + rest;
    var colon := f.colonSpace + [COLON] + argument;
    FilterParts(f, rest);
    SpaceThen(f.space, word + colon);
    KeywordLetters(f.keyword);
    NoSpaceBefore(word + colon);
    assert colon[0] == if f.colonSpace == [] then COLON else f.colonSpace[0];
    LetterRun(word, colon);
    Cut(word, colon);
    ByteAfter(f.colonSpace, COLON, argument);
    ArgumentParses(f.argument, rest);
  }

  lemma FilterAfterSpace(s: Bytes)
    requires FilterAt(s).Done? || FilterAt(SkipSpace(s)).Done?
    ensures FilterAt(SkipSpace(s)) == FilterAt(s)
  {
    hide SkipSpace, LetterLength, ExpectAt, NumberAt, NameAt;
    SkipTwice(s);
  }

  lemma FiltersAfterSpace(s: Bytes)
    ensures FiltersAt(SkipSpace(s)) == FiltersAt(s)
  {
    FiltersStep(s);
    FiltersStep(SkipSpace(s));
  }

  /** How the text of a filter begins. */
  lemma FilterAhead(f: FilterText, rest: Bytes)
    requires ValidFilter(f)
    ensures
      var s := FilterBytes(f) + rest;
      && !AtEnd(s, CLOSE_PAREN) && !NextIs(s, COMMA) && !StartsDigit(s) && (f.space != [] ==> !StartsWord(s))
  {
    hide SpaceLength;
    var t := WordOf(f.keyword) + (f.colonSpace + [COLON] + (ArgumentBytes(f.argument) + rest));
    FilterParts(f, rest);
    SpaceThen(f.space, t);
    KeywordLetters(f.keyword);
    NoSpaceBefore(t);
    assert (f.space + t)[0] == if f.space == [] then t[0] else f.space[0];
  }

  /** The text after the first filter of a list. */
  function AfterFilter(items: seq<FilterText>, tail: Bytes): Bytes
    requires items != []
  {
    CommaBytes(items[0].comma) + (FiltersBytes(items[1..]) + tail)
  }

  lemma AfterFilterIs(items: seq<FilterText>, tail: Bytes)
    requires items != []
    ensures FiltersBytes(items) + tail == FilterBytes(items[0]) + AfterFilter(items, tail)
    ensures items[0].comma.None? ==> AfterFilter(items, tail) == FiltersBytes(items[1..]) + tail
  {
    hide FilterBytes;
    assert items[0].comma.None? ==> [] + (FiltersBytes(items[1..]) + tail) == FiltersBytes(items[1..]) + tail;
  }

  lemma FilterEnds(items: seq<FilterText>, tail: Bytes)
    requires items != [] && ValidFilters(items) && NextIs(tail, CLOSE_PAREN)
    ensures ArgumentEnds(items[0].argument, AfterFilter(items, tail))
  {
    hide FilterBytes, SpaceLength, ValidFilter, FiltersBytes;
    if items[0].comma.Some? {
      ByteAfter(items[0].comma.value, COMMA, FiltersBytes(items[1..]) + tail);
      NotWordNotDigit(AfterFilter(items, tail));
    } else {
      AfterFilterIs(items, tail);
      if |items| == 1 {
        CloseAhead(items[1..], tail);
        NotWordNotDigit(tail);
      } else {
        AfterFilterIs(items[1..], tail);
        FilterAhead(items[1], AfterFilter(items[1..], tail));
      }
    }
  }

  lemma NotWordNotDigit(s: Bytes)
    requires !StartsWord(s)
    ensures !StartsDigit(s)
  {
  }

  lemma CloseAhead(items: seq<FilterText>, tail: Bytes)
    requires items == [] && NextIs(tail, CLOSE_PAREN)
    ensures FiltersBytes(items) + tail == tail && !StartsWord(tail)
  {
  }

  lemma {:induction false} FiltersParse(items: seq<FilterText>, tail: Bytes)
    requires ValidFilters(items) && NextIs(tail, CLOSE_PAREN)
    ensures FiltersAt(FiltersBytes(items) + tail) == Done(FiltersOf(items), SkipSpace(tail))
    decreases |items|
  {
    hide FilterBytes, SpaceLength, SkipSpace, FilterAt, FilterOf, AfterFilter, ValidFilter, ExpectAt;
    var s := FiltersBytes(items) + tail;
    if items == [] {
      CloseAhead(items, tail);
      FiltersStep(s);
    } else {
      var rest := AfterFilter(items, tail);
      AfterFilterIs(items, tail);
      FilterEnds(items, tail);
      FilterParses(items[0], rest);
      FilterAhead(items[0], rest);
      FilterAfterSpace(s);
      FiltersStep(s);
      FiltersParse(items[1..], tail);
      AfterComma(items, tail);
      AtEndTwice(s, CLOSE_PAREN);
    }
  }

  lemma AtEndTwice(s: Bytes, close: Byte)
    ensures AtEnd(SkipSpace(s), close) <==> AtEnd(s, close)
  {
    SkipTwice(s);
    hide SkipSpace;
  }

  lemma AfterComma(items: seq<FilterText>, tail: Bytes)
    requires items != [] && ValidFilters(items) && NextIs(tail, CLOSE_PAREN)
    ensures FiltersAt(AfterByte(AfterFilter(items, tail), COMMA)) == FiltersAt(FiltersBytes(items[1..]) + tail)
  {
    hide FilterBytes, SpaceLength, FiltersAt, ValidFilter;
    var more := FiltersBytes(items[1..]) + tail;
    if items[0].comma.Some? {
      ByteAfter(items[0].comma.value, COMMA, more);
    } else {
      AfterFilterIs(items, tail);
      if |items| == 1 {
        CloseAhead(items[1..], tail);
      } else {
        AfterFilterIs(items[1..], tail);
        FilterAhead(items[1], AfterFilter(items[1..], tail));
      }
      FiltersAfterSpace(more);
    }
  }

  //
  // Selects
  //

  lemma FilterListParses(fs: Option<FilterList>, rest: Bytes)
    requires fs.Some? ==> AllSpace(fs.value.space) && AllSpace(fs.value.closeSpace) && ValidFilters(fs.value.items)
    requires fs.None? ==> !NextIs(rest, OPEN_PAREN)
    ensures
      var s := FilterListBytes(fs) + rest;
      if fs.Some? then FilterListAt(s) == Done(FiltersOf(fs.value.items), rest)
      else FilterListAt(s) == Done([], SkipSpace(rest))
  {
    hide FiltersAt, FiltersBytes, SpaceLength, SkipSpace, ValidFilters;
    if fs.Some? {
      var l := fs.value;
      var close := l.closeSpace + [CLOSE_PAREN] + rest;
      assert FilterListBytes(fs) + rest == l.space + [OPEN_PAREN] + (FiltersBytes(l.items) + close);
      ByteAfter(l.space, OPEN_PAREN, FiltersBytes(l.items) + close);
      ByteAfter(l.closeSpace, CLOSE_PAREN, rest);
      FiltersParse(l.items, close);
      CloseTwice(close, CLOSE_PAREN);
    } else {
      assert FilterListBytes(fs) + rest == rest;
    }
  }

  lemma CloseTwice(s: Bytes, b: Byte)
    ensures ExpectAt(s, b).Done? ==> ExpectAt(SkipSpace(s), b) == ExpectAt(s, b)
  {
    SkipTwice(s);
    hide SkipSpace;
  }

  lemma AliasParses(a: Option<AliasText>, rest: Bytes)
    requires a.Some? ==>
               && AllSpace(a.value.space) && ValidName(a.value.name)
               && (a.value.name.Bare? ==> a.value.name.space != [] && !StartsWord(rest))
    requires a.None? ==> !KeywordNext(rest, AS)
    ensures
      var s := AliasBytes(a) + rest;
      if a.Some? then AliasAt(s) == Done(Some(a.value.name.text), rest) else AliasAt(s) == Done(None, SkipSpace(rest))
  {
    hide SpaceLength, NameAt, NameBytes, ValidName;
    if a.Some? {
      var name := NameBytes(a.value.name) + rest;
      assert AliasBytes(a) + rest == a.value.space + (AS + name);
      SpaceThen(a.value.space, AS + name);
      NoSpaceBefore(AS + name);
      Cut(AS, name);
      NameAhead(a.value.name, rest);
      NameParses(a.value.name, rest);
    } else {
      assert AliasBytes(a) + rest == rest;
    }
  }

  /** The text after the name, after the alias, and after the filters of a select. */
  function AfterFilters(s: SelectText, rest: Bytes): Bytes { SubselectBytes(s.subselects) + rest }

  function AfterAlias(s: SelectText, rest: Bytes): Bytes { FilterListBytes(s.filters) + AfterFilters(s, rest) }

  function AfterName(s: SelectText, rest: Bytes): Bytes { AliasBytes(s.alias) + AfterAlias(s, rest) }

  lemma SelectParts(s: SelectText, rest: Bytes)
    ensures SelectBytes(s) + rest == NameBytes(s.name) + AfterName(s, rest)
  {
    hide NameBytes, AliasBytes, FilterListBytes, SubselectBytes;
  }

  /** What follows does not continue the select. */
  predicate SelectEnds(s: SelectText, rest: Bytes) {
    && (EndsInName(s) ==>
          && (LastName(s).Bare? ==> !StartsWord(rest))
          && (s.alias.None? ==> !KeywordNext(rest, AS))
          && !NextIs(rest, OPEN_PAREN))
    && (s.subselects.None? ==> !NextIs(rest, OPEN_BRACE))
  }

  lemma ListAhead(l: SelectList, rest: Bytes)
    requires AllSpace(l.space)
    ensures
      var s := SelectListBytes(l) + rest;
      && !StartsWord(s) && !KeywordNext(s, AS) && !NextIs(s, OPEN_PAREN)
      && NextIs(s, OPEN_BRACE)
      && AfterByte(s, OPEN_BRACE) == SelectsBytes(l.items) + (l.closeSpace + [CLOSE_BRACE] + rest)
  {
    hide SelectsBytes, SkipSpace;
    var inner := SelectsBytes(l.items) + (l.closeSpace + [CLOSE_BRACE] + rest);
    assert SelectListBytes(l) + rest == l.space + [OPEN_BRACE] + inner;
    ByteAfter(l.space, OPEN_BRACE, inner);
  }

  lemma FilterListAhead(l: FilterList, rest: Bytes)
    requires AllSpace(l.space)
    ensures var s := FilterListBytes(Some(l)) + rest; !StartsWord(s) && !KeywordNext(s, AS)
  {
    hide FiltersBytes, SkipSpace;
    var inner := FiltersBytes(l.items) + (l.closeSpace + [CLOSE_PAREN] + rest);
    assert FilterListBytes(Some(l)) + rest == l.space + [OPEN_PAREN] + inner;
    ByteAfter(l.space, OPEN_PAREN, inner);
  }

  /** Each part of a select is not continued by the next. */
  lemma PartsEnd(s: SelectText, rest: Bytes)
    requires ValidSelect(s) && SelectEnds(s, rest)
    ensures s.filters.None? ==> !NextIs(AfterFilters(s, rest), OPEN_PAREN)
    ensures s.alias.None? ==> !KeywordNext(AfterAlias(s, rest), AS)
    ensures LastName(s).Bare? ==> !StartsWord(AfterAlias(s, rest))
    ensures s.name.Bare? ==> !StartsWord(AfterName(s, rest))
  {
    hide ValidName, ValidFilters, ValidSelects, SelectListBytes, KeywordNext, NextIs, SkipSpace, NameBytes;
    var after := AfterFilters(s, rest);
    if s.subselects.Some? { ListAhead(s.subselects.value, rest); } else { assert after == rest; }
    if s.filters.Some? { FilterListAhead(s.filters.value, after); } else { assert AfterAlias(s, rest) == after; }
    if s.alias.Some? {
      var a := s.alias.value;
      assert s.name.Bare? ==> AfterName(s, rest)[0] == a.space[0];
    } else {
      assert AfterName(s, rest) == AfterAlias(s, rest);
    }
  }

  lemma HeadParses(s: SelectText, rest: Bytes)
    requires ValidSelect(s) && SelectEnds(s, rest)
    ensures
      var r := AfterFilters(s, rest);
      var fs := if s.filters.Some? then FiltersOf(s.filters.value.items) else [];
      HeadAt(SelectBytes(s) + rest)
      == Done(Select(s.name.text, if s.alias.Some? then Some(s.alias.value.name.text) else None, fs, []),
              if s.filters.Some? then r else SkipSpace(r))
  {
    hide ValidFilters, ValidName, FiltersOf, NameAt, AliasAt, FilterListAt, SelectBytes, NextIs, KeywordNext,
      SelectEnds,
      SkipSpace, NameBytes, AliasBytes, FilterListBytes, SubselectBytes;
    SelectParts(s, rest);
    PartsEnd(s, rest);
    NameParses(s.name, AfterName(s, rest));
    AliasParses(s.alias, AfterAlias(s, rest));
    FilterListParses(s.filters, AfterFilters(s, rest));
    if s.alias.None? { FilterListAfterSpace(AfterAlias(s, rest)); }
  }

  lemma FilterListAfterSpace(s: Bytes)
    ensures FilterListAt(SkipSpace(s)) == FilterListAt(s)
  {
    SkipTwice(s);
    hide SkipSpace, FiltersAt, ExpectAt;
  }

  lemma HeadAfterSpace(s: Bytes)
    ensures HeadAt(SkipSpace(s)) == HeadAt(s)
  {
    NameAfterSpace(s);
    hide NameAt, AliasAt, FilterListAt, SkipSpace;
  }

  lemma SelectAfterSpace(s: Bytes)
    ensures SelectAt(SkipSpace(s)) == SelectAt(s)
  {
    HeadAfterSpace(s);
    hide HeadAt, SkipSpace, SelectsAt, AfterByte, NextIs, ExpectAt;
  }

  lemma SelectsAfterSpace(s: Bytes)
    ensures SelectsAt(SkipSpace(s)) == SelectsAt(s)
  {
    SelectsStep(s);
    SelectsStep(SkipSpace(s));
  }

  lemma ByteAfterSpace(s: Bytes, b: Byte)
    ensures NextIs(SkipSpace(s), b) == NextIs(s, b) && AfterByte(SkipSpace(s), b) == AfterByte(s, b)
  {
    SkipTwice(s);
    hide SkipSpace;
  }

  /** How the text of a select begins. */
  lemma SelectAhead(s: SelectText, rest: Bytes)
    requires ValidSelect(s) && SelectEnds(s, rest)
    ensures
      var t := SelectBytes(s) + rest;
      && !AtEnd(t, CLOSE_BRACE) && !NextIs(t, COMMA) && !NextIs(t, OPEN_PAREN) && !NextIs(t, OPEN_BRACE)
      && (StartsWord(t) <==> s.name.Bare? && s.name.space == [])
      && (KeywordNext(t, AS) <==> s.name.Bare? && s.name.text == AS)
  {
    hide SelectBytes, SelectEnds, AfterName, SkipSpace, KeywordNext, NextIs, ValidName, NameBytes, ValidFilters,
      ValidSelects;
    SelectParts(s, rest);
    PartsEnd(s, rest);
    NameAhead(s.name, AfterName(s, rest));
  }

  /** The text after the first select of a list. */
  function AfterSelect(items: seq<SelectText>, tail: Bytes): Bytes
    requires items != []
  {
    CommaBytes(items[0].comma) + (SelectsBytes(items[1..]) + tail)
  }

  lemma AfterSelectIs(items: seq<SelectText>, tail: Bytes)
    requires items != []
    ensures SelectsBytes(items) + tail == SelectBytes(items[0]) + AfterSelect(items, tail)
    ensures items[0].comma.None? ==> AfterSelect(items, tail) == SelectsBytes(items[1..]) + tail
  {
    hide SelectBytes;
    assert items[0].comma.None? ==> [] + (SelectsBytes(items[1..]) + tail) == SelectsBytes(items[1..]) + tail;
  }

  lemma BraceAhead(items: seq<SelectText>, tail: Bytes)
    requires items == [] && NextIs(tail, CLOSE_BRACE)
    ensures
      && SelectsBytes(items) + tail == tail && !StartsWord(tail) && !KeywordNext(tail, AS)
      && !NextIs(tail, OPEN_PAREN) && !NextIs(tail, OPEN_BRACE) && !NextIs(tail, COMMA)
  {
  }

  /** In a well-formed list no select is continued by what follows it. */
  lemma {:induction false} EachEnds(items: seq<SelectText>, tail: Bytes)
    requires items != [] && ValidSelects(items) && NextIs(tail, CLOSE_BRACE)
    ensures SelectEnds(items[0], AfterSelect(items, tail))
    decreases |items|
  {
    hide SelectBytes, SkipSpace, ValidSelect, SelectsBytes, NextIs, KeywordNext;
    if items[0].comma.Some? {
      ByteAfter(items[0].comma.value, COMMA, SelectsBytes(items[1..]) + tail);
    } else {
      AfterSelectIs(items, tail);
      if |items| == 1 {
        BraceAhead(items[1..], tail);
      } else {
        EachEnds(items[1..], tail);
        AfterSelectIs(items[1..], tail);
        SelectAhead(items[1], AfterSelect(items[1..], tail));
      }
    }
  }

  lemma SelectAfterComma(items: seq<SelectText>, tail: Bytes)
    requires items != [] && ValidSelects(items) && NextIs(tail, CLOSE_BRACE)
    ensures SelectsAt(AfterByte(AfterSelect(items, tail), COMMA)) == SelectsAt(SelectsBytes(items[1..]) + tail)
  {
    hide SelectBytes, SkipSpace, SelectsAt, ValidSelect, SelectEnds;
    var more := SelectsBytes(items[1..]) + tail;
    if items[0].comma.Some? {
      ByteAfter(items[0].comma.value, COMMA, more);
    } else {
      AfterSelectIs(items, tail);
      if |items| == 1 {
        BraceAhead(items[1..], tail);
      } else {
        EachEnds(items[1..], tail);
        AfterSelectIs(items[1..], tail);
        SelectAhead(items[1], AfterSelect(items[1..], tail));
      }
      SelectsAfterSpace(more);
    }
  }

  /** A select: its meaning, and what is left, without white space unless the select ends in a brace. */
  lemma {:induction false} SelectParses(s: SelectText, rest: Bytes)
    requires ValidSelect(s) && SelectEnds(s, rest)
    ensures SelectAt(SelectBytes(s) + rest) == Done(SelectOf(s), if s.subselects.Some? then rest else SkipSpace(rest))
    decreases s, 0
  {
    hide SelectBytes, HeadAt, SkipSpace, SelectsAt, ValidName, ValidFilters, FiltersOf, ExpectAt, SelectsBytes,
      SelectsOf,
      NextIs, AfterByte, ValidSelects;
    HeadParses(s, rest);
    var r := AfterFilters(s, rest);
    ByteAfterSpace(r, OPEN_BRACE);
    if s.subselects.Some? {
      var l := s.subselects.value;
      var close := l.closeSpace + [CLOSE_BRACE] + rest;
      ListAhead(l, rest);
      ByteAfter(l.closeSpace, CLOSE_BRACE, rest);
      SelectsParse(l.items, close);
      CloseTwice(close, CLOSE_BRACE);
    } else {
      assert r == rest;
      NoByteNext(r, OPEN_BRACE);
    }
  }

  lemma NoByteNext(s: Bytes, b: Byte)
    requires !NextIs(s, b)
    ensures AfterByte(s, b) == SkipSpace(s)
  {
  }

  lemma {:induction false} SelectsParse(items: seq<SelectText>, tail: Bytes)
    requires ValidSelects(items) && NextIs(tail, CLOSE_BRACE)
    ensures SelectsAt(SelectsBytes(items) + tail) == Done(SelectsOf(items), SkipSpace(tail))
    decreases items, 0
  {
    hide SelectBytes, SkipSpace, SelectAt, SelectOf, AfterSelect, ValidSelect, SelectEnds, AfterByte, NextIs;
    var s := SelectsBytes(items) + tail;
    SelectsStep(s);
    if items == [] {
      BraceAhead(items, tail);
      AtEndTwice(s, CLOSE_BRACE);
    } else {
      var rest := AfterSelect(items, tail);
      AfterSelectIs(items, tail);
      EachEnds(items, tail);
      SelectParses(items[0], rest);
      SelectAhead(items[0], rest);
      SelectAfterSpace(s);
      AtEndTwice(s, CLOSE_BRACE);
      ByteAfterSpace(rest, COMMA);
      SelectAfterComma(items, tail);
      SelectsParse(items[1..], tail);
    }
  }

  /** Every well-formed text is accepted, and parses to its meaning. */
  lemma TextParses(q: QueryText)
    requires ValidQuery(q)
    ensures QueryAt(QueryBytes(q)) == Done(QueryOf(q), [])
  {
    hide SelectsAt, SkipSpace, SelectsBytes, SelectsOf, ValidSelects;
    var l := q.list;
    var close := l.closeSpace + [CLOSE_BRACE] + q.endSpace;
    assert QueryBytes(q) == l.space + [OPEN_BRACE] + (SelectsBytes(l.items) + close);
    ByteAfter(l.space, OPEN_BRACE, SelectsBytes(l.items) + close);
    ByteAfter(l.closeSpace, CLOSE_BRACE, q.endSpace);
    SelectsParse(l.items, close);
    CloseTwice(close, CLOSE_BRACE);
    SpaceThen(q.endSpace, []);
    assert q.endSpace + [] == q.endSpace;
    assert SkipSpace([]) == [] by { NothingLeft(); }
  }

  lemma NothingLeft()
    ensures SkipSpace([]) == []
  {
  }
}
