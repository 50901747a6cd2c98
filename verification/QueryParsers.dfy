/** The recursive-descent parser (src/query/parse.rs), and the function it computes. */
module QueryParsers {
  import opened ByteStrings
  import opened QueryTexts

  datatype QueryError =
    | UnexpectedChar(found: Byte, at: nat)
    | UnexpectedEnd
    | UnknownFilter(keyword: Bytes, at: nat)

  //
  // What the parser computes, as a function of the input that is left. Errors tell how much input was left.
  //

  datatype Fault = BadChar(b: Byte, left: nat) | TooGreat(left: nat) | Ended | BadFilter(keyword: Bytes, left: nat)

  datatype Parse<+T> = Done(value: T, rest: Bytes) | Failed(fault: Fault)

  function SpaceLength(s: Bytes): (n: nat)
    ensures n <= |s|
  {
    if s == [] || !IsSpace(s[0]) then 0 else 1 + SpaceLength(s[1..])
  }

  function SkipSpace(s: Bytes): (r: Bytes)
    ensures |r| <= |s|
  {
    s[SpaceLength(s)..]
  }

  function WordLength(s: Bytes): (n: nat)
    ensures n <= |s|
  {
    if s == [] || !IsWord(s[0]) then 0 else 1 + WordLength(s[1..])
  }

  function DigitLength(s: Bytes): (n: nat)
    ensures n <= |s|
  {
    if s == [] || !IsDigit(s[0]) then 0 else 1 + DigitLength(s[1..])
  }

  lemma {:induction false} DigitsAre(s: Bytes)
    ensures AllDigits(s[..DigitLength(s)]) && !StartsDigit(s[DigitLength(s)..])
  {
    if s != [] && IsDigit(s[0]) {
      DigitsAre(s[1..]);
      var n := DigitLength(s[1..]);
      assert s[..n + 1] == [s[0]] + s[1..][..n] && s[n + 1..] == s[1..][n..];
    }
  }

  function LetterLength(s: Bytes): (n: nat)
    ensures n <= |s|
  {
    if s == [] || !IsLetter(s[0]) then 0 else 1 + LetterLength(s[1..])
  }

  /** Up to the next quote. */
  function QuoteLength(s: Bytes): (n: nat)
    ensures n <= |s|
  {
    if s == [] || s[0] == QUOTE then 0 else 1 + QuoteLength(s[1..])
  }

  function ExpectAt(s: Bytes, b: Byte): (p: Parse<()>)
    ensures p.Done? ==> |p.rest| < |s|
  {
    var t := SkipSpace(s);
    if t == [] then Failed(Ended)
    else if t[0] == b then Done((), t[1..])
    else Failed(BadChar(t[0], |t|))
  }

  /** Whether the byte is next, and what follows; white space is skipped either way. */
  predicate NextIs(s: Bytes, b: Byte) {
    var t := SkipSpace(s);
    t != [] && t[0] == b
  }

  function AfterByte(s: Bytes, b: Byte): (r: Bytes)
    ensures |r| <= |s| && (NextIs(s, b) ==> |r| < |s|)
  {
    if NextIs(s, b) then SkipSpace(s)[1..] else SkipSpace(s)
  }

  /** The keyword is next, and no longer word that starts with it. */
  predicate KeywordNext(s: Bytes, kw: Bytes) {
    var t := SkipSpace(s);
    kw <= t && !StartsWord(t[|kw|..])
  }

  function AfterKeyword(s: Bytes, kw: Bytes): (r: Bytes)
    ensures |r| <= |s|
  {
    if KeywordNext(s, kw) then SkipSpace(s)[|kw|..] else SkipSpace(s)
  }

  /** After the opening quote. */
  function QuotedAt(s: Bytes): (p: Parse<Bytes>)
    ensures p.Done? ==> |p.rest| < |s|
  {
    var n := QuoteLength(s);
    if n == |s| then Failed(Ended) else Done(s[..n], s[n + 1..])
  }

  function BareAt(s: Bytes): (p: Parse<Bytes>)
    requires StartsWord(s)
    ensures p.Done? && |p.rest| < |s|
  {
    Done(s[..WordLength(s)], s[WordLength(s)..])
  }

  function NameAt(s: Bytes): (p: Parse<Bytes>)
    ensures p.Done? ==> |p.rest| < |s|
  {
    var t := SkipSpace(s);
    if t == [] then Failed(Ended)
    else if t[0] == QUOTE then QuotedAt(t[1..])
    else if IsLetter(t[0]) then BareAt(t)
    else Failed(BadChar(t[0], |t|))
  }

  function NumberAt(s: Bytes): (p: Parse<nat>)
    ensures p.Done? ==> |p.rest| < |s|
  {
    var t := SkipSpace(s);
    var n := DigitLength(t);
    DigitsAre(t);
    if n == 0 then Failed(if t == [] then Ended else BadChar(t[0], |t|))
    else if Decimal(t[..n]) < USIZE_LIMIT then Done(Decimal(t[..n]), t[n..])
    else Failed(TooGreat(|t|))
  }

  function MapParse<T, U>(p: Parse<T>, f: T -> U): (q: Parse<U>) {
    match p
    case Done(v, rest) => Done(f(v), rest)
    case Failed(e) => Failed(e)
  }

  function FilterAt(s: Bytes): (p: Parse<Filter>)
    ensures p.Done? ==> |p.rest| < |s|
  {
    var t := SkipSpace(s);
    var kw := t[..LetterLength(t)];
    match ExpectAt(t[LetterLength(t)..], COLON)
    case Failed(e) => Failed(e)
    case Done(_, r) =>
      if kw == SKIP then MapParse(NumberAt(r), n => Skip(n))
      else if kw == TAKE then MapParse(NumberAt(r), n => Take(n))
      else if kw == AFTER then MapParse(NameAt(r), n => After(n))
      else if kw == BEFORE then MapParse(NameAt(r), n => Before(n))
      else Failed(BadFilter(kw, |s|))
  }

  /** No more items: the input ended, or the closing byte is next. */
  predicate AtEnd(s: Bytes, close: Byte) {
    SkipSpace(s) == [] || NextIs(s, close)
  }

  function FiltersAt(s: Bytes): (p: Parse<seq<Filter>>)
    ensures p.Done? ==> |p.rest| <= |s|
    decreases |s|
  {
    if AtEnd(s, CLOSE_PAREN) then Done([], SkipSpace(s))
    else
      match FilterAt(SkipSpace(s))
      case Failed(e) => Failed(e)
      case Done(f, r) =>
        match FiltersAt(AfterByte(r, COMMA))
        case Failed(e) => Failed(e)
        case Done(fs, t) => Done([f] + fs, t)
  }

  /** The filters in parentheses, if any. */
  function FilterListAt(s: Bytes): (p: Parse<seq<Filter>>)
    ensures p.Done? ==> |p.rest| <= |s|
  {
    var t := AfterByte(s, OPEN_PAREN);
    if !NextIs(s, OPEN_PAREN) then Done([], t)
    else
      match FiltersAt(t)
      case Failed(e) => Failed(e)
      case Done(fs, u) => MapParse(ExpectAt(u, CLOSE_PAREN), (x: ()) => fs)
  }

  function AliasAt(s: Bytes): (p: Parse<Option<Bytes>>)
    ensures p.Done? ==> |p.rest| <= |s|
  {
    var t := AfterKeyword(s, AS);
    if KeywordNext(s, AS) then MapParse(NameAt(t), n => Some(n)) else Done(None, t)
  }

  /** A select up to its braces: name, alias, filters. */
  function HeadAt(s: Bytes): (p: Parse<Select>)
    ensures p.Done? ==> |p.rest| < |s|
  {
    match NameAt(s)
    case Failed(e) => Failed(e)
    case Done(name, r) =>
      match AliasAt(r)
      case Failed(e) => Failed(e)
      case Done(alias, t) => MapParse(FilterListAt(t), fs => Select(name, alias, fs, []))
  }

  function SelectAt(s: Bytes): (p: Parse<Select>)
    ensures p.Done? ==> |p.rest| < |s|
    decreases |s|, 0
  {
    match HeadAt(s)
    case Failed(e) => Failed(e)
    case Done(head, r) =>
      var t := AfterByte(r, OPEN_BRACE);
      if !NextIs(r, OPEN_BRACE) then Done(head, t)
      else
        match SelectsAt(t)
        case Failed(e) => Failed(e)
        case Done(ss, u) => MapParse(ExpectAt(u, CLOSE_BRACE), (x: ()) => head.(subselects := ss))
  }

  function SelectsAt(s: Bytes): (p: Parse<seq<Select>>)
    ensures p.Done? ==> |p.rest| <= |s|
    decreases |s|, 1
  {
    if AtEnd(s, CLOSE_BRACE) then Done([], SkipSpace(s))
    else
      match SelectAt(SkipSpace(s))
      case Failed(e) => Failed(e)
      case Done(sel, r) =>
        match SelectsAt(AfterByte(r, COMMA))
        case Failed(e) => Failed(e)
        case Done(more, t) => Done([sel] + more, t)
  }

  function QueryAt(s: Bytes): Parse<Query> {
    match ExpectAt(s, OPEN_BRACE)
    case Failed(e) => Failed(e)
    case Done(_, r) =>
      match SelectsAt(r)
      case Failed(e) => Failed(e)
      case Done(ss, t) =>
        match ExpectAt(t, CLOSE_BRACE)
        case Failed(e) => Failed(e)
        case Done(_, u) =>
          var v := SkipSpace(u);
          if v == [] then Done(Query(ss), []) else Failed(BadChar(v[0], |v|))
  }

  //
  // The parser
  //

  /** Where a fault lies in the input. */
  function Located(f: Fault, length: nat): QueryError {
    match f
    case BadChar(b, left) => UnexpectedChar(b, if left <= length then length - left else 0)
    case TooGreat(left) => UnexpectedChar(63, if left <= length then length - left else 0)
    case Ended => UnexpectedEnd
    case BadFilter(kw, left) => UnknownFilter(kw, if left <= length then length - left else 0)
  }

  /** The result and the new position are those of the function. */
  predicate Agrees<T(==)>(input: Bytes, pos: nat, r: Result<T, QueryError>, p: Parse<T>)
    requires pos <= |input|
  {
    match p
    case Done(v, rest) => r == Ok(v) && input[pos..] == rest
    case Failed(f) => r == Err(Located(f, |input|))
  }

  class Parser {
    const input: Bytes
    var pos: nat

    predicate Valid()
      reads this
    {
      pos <= |input|
    }

    function Left(): Bytes
      requires Valid()
      reads this
    {
      input[pos..]
    }

    constructor (input: Bytes)
      ensures Valid() && this.input == input && pos == 0
    {
      this.input, pos := input, 0;
    }

    method SkipWs()
      requires Valid()
      modifies this
      ensures Valid() && pos >= old(pos) && Left() == SkipSpace(old(Left()))
    {
      while pos < |input| && IsSpace(input[pos])
        invariant Valid() && pos >= old(pos) && SkipSpace(Left()) == SkipSpace(old(Left()))
      {
        assert Left()[1..] == input[pos + 1..];
        pos := pos + 1;
      }
    }

    method Peek() returns (b: Option<Byte>)
      requires Valid()
      ensures b == if Left() == [] then None else Some(Left()[0])
    {
      b := if pos < |input| then Some(input[pos]) else None;
    }

    method Expect(byte: Byte) returns (r: Result<(), QueryError>)
      requires Valid()
      modifies this
      ensures Valid() && pos >= old(pos) && Agrees(input, pos, r, ExpectAt(old(Left()), byte))
    {
      hide SkipSpace;
      SkipWs();
      var b := Peek();
      if b == Some(byte) {
        assert Left()[1..] == input[pos + 1..];
        pos := pos + 1;
        r := Ok(());
      } else if b.Some? {
        r := Err(UnexpectedChar(b.value, pos));
      } else {
        r := Err(UnexpectedEnd);
      }
    }

    method TryByte(byte: Byte) returns (r: bool)
      requires Valid()
      modifies this
      ensures Valid() && pos >= old(pos) && r == NextIs(old(Left()), byte) && Left() == AfterByte(old(Left()), byte)
    {
      SkipWs();
      var b := Peek();
      if b == Some(byte) {
        assert Left()[1..] == input[pos + 1..];
        pos := pos + 1;
        r := true;
      } else {
        r := false;
      }
    }

    method TryKeyword(kw: Bytes) returns (r: bool)
      requires Valid()
      modifies this
      ensures Valid() && pos >= old(pos) && r == KeywordNext(old(Left()), kw) && Left() == AfterKeyword(old(Left()), kw)
    {
      SkipWs();
      var end := pos + |kw|;
      if end > |input| {
        return false;
      }
      assert Left()[..|kw|] == input[pos..end] && Left()[|kw|..] == input[end..];
      if input[pos..end] != kw {
        return false;
      }
      if end < |input| && IsWord(input[end]) {
        return false;
      }
      pos := end;
      r := true;
    }

    method ParseQuotedString() returns (r: Result<Bytes, QueryError>)
      requires Valid() && Left() != [] && Left()[0] == QUOTE
      modifies this
      ensures Valid() && pos >= old(pos) && Agrees(input, pos, r, QuotedAt(old(Left())[1..]))
    {
      assert Left()[1..] == input[pos + 1..];
      pos := pos + 1;
      var start := pos;
      ghost var u := Left();
      while pos < |input| && input[pos] != QUOTE
        invariant Valid() && start <= pos && QuoteLength(u) == pos - start + QuoteLength(Left())
      {
        assert Left()[1..] == input[pos + 1..];
        pos := pos + 1;
      }
      assert u[..pos - start] == input[start..pos];
      if pos >= |input| {
        return Err(UnexpectedEnd);
      }
      r := Ok(input[start..pos]);
      assert u[pos - start + 1..] == input[pos + 1..];
      pos := pos + 1;
    }

    method ParseBareWord() returns (r: Result<Bytes, QueryError>)
      requires Valid() && StartsWord(Left())
      modifies this
      ensures Valid() && pos >= old(pos) && Agrees(input, pos, r, BareAt(old(Left())))
    {
      var start := pos;
      ghost var u := Left();
      while pos < |input| && IsWord(input[pos])
        invariant Valid() && start <= pos && WordLength(u) == pos - start + WordLength(Left())
      {
        assert Left()[1..] == input[pos + 1..];
        pos := pos + 1;
      }
      assert u[..WordLength(u)] == input[start..pos] && u[WordLength(u)..] == input[pos..];
      r := Ok(input[start..pos]);
    }

    method ParseName() returns (r: Result<Bytes, QueryError>)
      requires Valid()
      modifies this
      ensures Valid() && pos >= old(pos) && Agrees(input, pos, r, NameAt(old(Left())))
    {
      hide SpaceLength, SkipSpace, BareAt, QuotedAt;
      SkipWs();
      var b := Peek();
      if b.None? {
        r := Err(UnexpectedEnd);
      } else if b.value == QUOTE {
        r := ParseQuotedString();
      } else if IsLetter(b.value) {
        r := ParseBareWord();
      } else {
        r := Err(UnexpectedChar(b.value, pos));
      }
    }

    /** `parse::<usize>` of a run of digits. */
    method ParseUsize(digits: Bytes) returns (r: Option<nat>)
      requires AllDigits(digits)
      ensures r == if Decimal(digits) < USIZE_LIMIT then Some(Decimal(digits)) else None
    {
      var n := 0;
      assert digits[..0] == [];
      for i := 0 to |digits|
        invariant n == Decimal(digits[..i])
      {
        assert digits[..i + 1][..i] == digits[..i];
        n := 10 * n + (digits[i] - 48);
      }
      assert digits[..|digits|] == digits;
      r := if n < USIZE_LIMIT then Some(n) else None;
    }

    method ParseNumber() returns (r: Result<nat, QueryError>)
      requires Valid()
      modifies this
      ensures Valid() && pos >= old(pos) && Agrees(input, pos, r, NumberAt(old(Left())))
    {
      hide Decimal, SpaceLength, SkipSpace;
      SkipWs();
      var start := pos;
      ghost var u := Left();
      while pos < |input| && IsDigit(input[pos])
        invariant Valid() && start <= pos && DigitLength(u) == pos - start + DigitLength(Left())
      {
        assert Left()[1..] == input[pos + 1..];
        pos := pos + 1;
      }
      assert u[..DigitLength(u)] == input[start..pos] && u[DigitLength(u)..] == input[pos..];
      DigitsAre(u);
      if pos == start {
        var b := Peek();
        return if b.Some? then Err(UnexpectedChar(b.value, pos)) else Err(UnexpectedEnd);
      }
      var n := ParseUsize(input[start..pos]);
      r := if n.Some? then Ok(n.value) else Err(UnexpectedChar(63, start));
    }

    method ParseFilter() returns (r: Result<Filter, QueryError>)
      requires Valid()
      modifies this
      ensures Valid() && pos >= old(pos) && Agrees(input, pos, r, FilterAt(old(Left())))
      ensures r.Ok? ==> pos > old(pos)
    {
      hide SpaceLength, SkipSpace, NumberAt, NameAt, ExpectAt;
      var kwPos := pos;
      SkipWs();
      var start := pos;
      ghost var u := Left();
      while pos < |input| && IsLetter(input[pos])
        invariant Valid() && start <= pos && LetterLength(u) == pos - start + LetterLength(Left())
      {
        assert Left()[1..] == input[pos + 1..];
        pos := pos + 1;
      }
      assert u[..LetterLength(u)] == input[start..pos] && u[LetterLength(u)..] == input[pos..];
      var kw := input[start..pos];
      var colon := Expect(COLON);
      if colon.Err? {
        return Err(colon.error);
      }
      if kw == SKIP {
        var n := ParseNumber();
        r := if n.Ok? then Ok(Skip(n.value)) else Err(n.error);
      } else if kw == TAKE {
        var n := ParseNumber();
        r := if n.Ok? then Ok(Take(n.value)) else Err(n.error);
      } else if kw == AFTER {
        var n := ParseName();
        r := if n.Ok? then Ok(After(n.value)) else Err(n.error);
      } else if kw == BEFORE {
        var n := ParseName();
        r := if n.Ok? then Ok(Before(n.value)) else Err(n.error);
      } else {
        r := Err(UnknownFilter(kw, kwPos));
      }
    }

    method ParseFilters() returns (r: Result<seq<Filter>, QueryError>)
      requires Valid()
      modifies this
      ensures Valid() && pos >= old(pos) && Agrees(input, pos, r, FiltersAt(old(Left())))
    {
      hide SpaceLength, SkipSpace, FilterAt, FiltersAt, AfterByte, AtEnd;
      ghost var whole := FiltersAt(Left());
      var filters := [];
      PrependNothing(whole);
      while true
        invariant Valid() && pos >= old(pos) && whole == Prepend(filters, FiltersAt(Left()))
        decreases |input| - pos
      {
        FiltersStep(Left());
        SkipWs();
        var b := Peek();
        AtEndIs(Left(), CLOSE_PAREN);
        if b.None? || b.value == CLOSE_PAREN {
          assert filters + [] == filters;
          return Ok(filters);
        }
        var f := ParseFilter();
        if f.Err? {
          return Err(f.error);
        }
        var comma := TryByte(COMMA);
        PrependStep(filters, f.value, FiltersAt(Left()));
        filters := filters + [f.value];
      }
    }

    method ParseFilterList() returns (r: Result<seq<Filter>, QueryError>)
      requires Valid()
      modifies this
      ensures Valid() && pos >= old(pos) && Agrees(input, pos, r, FilterListAt(old(Left())))
    {
      hide FiltersAt, ExpectAt, AfterByte, NextIs, SkipSpace;
      var open := TryByte(OPEN_PAREN);
      if !open {
        return Ok([]);
      }
      r := ParseFilters();
      if r.Ok? {
        var close := Expect(CLOSE_PAREN);
        if close.Err? { r := Err(close.error); }
      }
    }

    /** The part of `parse_select` before its subselects. */
    method ParseHead() returns (r: Result<Select, QueryError>)
      requires Valid()
      modifies this
      ensures Valid() && pos >= old(pos) && Agrees(input, pos, r, HeadAt(old(Left())))
    {
      hide FilterListAt, NameAt, AfterKeyword, KeywordNext, SkipSpace;
      var name := ParseName();
      if name.Err? {
        return Err(name.error);
      }
      var alias := None;
      var aliased := TryKeyword(AS);
      if aliased {
        var n := ParseName();
        if n.Err? {
          return Err(n.error);
        }
        alias := Some(n.value);
      }
      var fs := ParseFilterList();
      if fs.Err? {
        return Err(fs.error);
      }
      r := Ok(Select(name.value, alias, fs.value, []));
    }

    method ParseSelect() returns (r: Result<Select, QueryError>)
      requires Valid()
      modifies this
      ensures Valid() && pos >= old(pos) && Agrees(input, pos, r, SelectAt(old(Left())))
      ensures r.Ok? ==> pos > old(pos)
      decreases |Left()|, 0
    {
      hide HeadAt, SelectsAt, ExpectAt, AfterByte, NextIs, SkipSpace;
      r := ParseHead();
      if r.Err? {
        return;
      }
      var open := TryByte(OPEN_BRACE);
      if !open {
        return;
      }
      var head := r.value;
      var ss := ParseSelects();
      if ss.Err? {
        return Err(ss.error);
      }
      var close := Expect(CLOSE_BRACE);
      if close.Err? {
        return Err(close.error);
      }
      r := Ok(head.(subselects := ss.value));
    }

    method ParseSelects() returns (r: Result<seq<Select>, QueryError>)
      requires Valid()
      modifies this
      ensures Valid() && pos >= old(pos) && Agrees(input, pos, r, SelectsAt(old(Left())))
      decreases |Left()|, 1
    {
      hide SpaceLength, SkipSpace, SelectAt, SelectsAt, AfterByte, AtEnd;
      ghost var whole := SelectsAt(Left());
      var selects := [];
      PrependNothing(whole);
      while true
        invariant Valid() && pos >= old(pos) && whole == Prepend(selects, SelectsAt(Left()))
        decreases |input| - pos
      {
        SelectsStep(Left());
        SkipWs();
        var b := Peek();
        AtEndIs(Left(), CLOSE_BRACE);
        if b.None? || b.value == CLOSE_BRACE {
          assert selects + [] == selects;
          return Ok(selects);
        }
        var sel := ParseSelect();
        if sel.Err? {
          return Err(sel.error);
        }
        var comma := TryByte(COMMA);
        PrependStep(selects, sel.value, SelectsAt(Left()));
        selects := selects + [sel.value];
      }
    }

    method ParseQuery() returns (r: Result<Query, QueryError>)
      requires Valid() && pos == 0
      modifies this
      ensures
        match QueryAt(input)
        case Done(q, _) => r == Ok(q)
        case Failed(f) => r == Err(Located(f, |input|))
    {
      hide SelectsAt, ExpectAt, SkipSpace;
      assert Left() == input;
      var open := Expect(OPEN_BRACE);
      if open.Err? {
        return Err(open.error);
      }
      var ss := ParseSelects();
      if ss.Err? {
        return Err(ss.error);
      }
      var close := Expect(CLOSE_BRACE);
      if close.Err? {
        return Err(close.error);
      }
      SkipWs();
      if pos != |input| {
        return Err(UnexpectedChar(input[pos], pos));
      }
      r := Ok(Query(ss.value));
    }
  }

  /** Results parsed before, in front of those of the rest. */
  function Prepend<T>(xs: seq<T>, p: Parse<seq<T>>): Parse<seq<T>> {
    match p
    case Done(v, rest) => Done(xs + v, rest)
    case Failed(e) => Failed(e)
  }

  lemma PrependNothing<T>(p: Parse<seq<T>>)
    ensures Prepend([], p) == p
  {
    if p.Done? { assert [] + p.value == p.value; }
  }

  lemma PrependStep<T>(xs: seq<T>, x: T, p: Parse<seq<T>>)
    ensures Prepend(xs + [x], p) == Prepend(xs, Prepend([x], p))
  {
    if p.Done? { assert (xs + [x]) + p.value == xs + ([x] + p.value); }
  }

  lemma {:induction false} SkipTwice(s: Bytes)
    ensures SkipSpace(SkipSpace(s)) == SkipSpace(s)
  {
    if s != [] && IsSpace(s[0]) { SkipTwice(s[1..]); assert SkipSpace(s) == SkipSpace(s[1..]); }
  }

  lemma AtEndIs(s: Bytes, close: Byte)
    requires SkipSpace(s) == s
    ensures AtEnd(s, close) <==> s == [] || s[0] == close
  {
  }

  lemma FiltersStep(s: Bytes)
    ensures
      var t := SkipSpace(s);
      && SkipSpace(t) == t
      && FiltersAt(s) == if AtEnd(t, CLOSE_PAREN) then Done([], t)
                         else
                           var p := FilterAt(t);
                           if p.Failed? then Failed(p.fault)
                           else Prepend([p.value], FiltersAt(AfterByte(p.rest, COMMA)))
  {
    SkipTwice(s);
    hide FilterAt, AfterByte, SkipSpace;
  }

  lemma SelectsStep(s: Bytes)
    ensures
      var t := SkipSpace(s);
      && SkipSpace(t) == t
      && SelectsAt(s) == if AtEnd(t, CLOSE_BRACE) then Done([], t)
                         else
                           var p := SelectAt(t);
                           if p.Failed? then Failed(p.fault)
                           else Prepend([p.value], SelectsAt(AfterByte(p.rest, COMMA)))
  {
    SkipTwice(s);
    hide SelectAt, AfterByte, SkipSpace;
  }
}
