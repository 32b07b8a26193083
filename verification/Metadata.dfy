/** Strings as attributes: tokens, attributes and values, numbers, and what a metadata string means. */
module Metadata {
  import opened Wrappers

  /** The two output fields of the encode and the decode metadata. */
  datatype Fields = Fields(hintId: int, state: int)

  const BUFFER_SIZE: nat := 1024

  // ----- tokens

  /** The pieces between semicolons. */
  function Split(s: string): (r: seq<string>)
    ensures r != []
  {
    if s == [] then [[]]
    else if s[0] == ';' then [[]] + Split(s[1..])
    else [[s[0]] + Split(s[1..])[0]] + Split(s[1..])[1..]
  }

  /** The pieces with semicolons between them. */
  function Joined(pieces: seq<string>): string {
    if pieces == [] then [] else if |pieces| == 1 then pieces[0] else pieces[0] + [';'] + Joined(pieces[1..])
  }

  /** Splitting is the one way to write a string as semicolon-free pieces. */
  lemma {:induction false} SplitMeaning(s: string)
    ensures Joined(Split(s)) == s && forall i :: 0 <= i < |Split(s)| ==> ';' !in Split(s)[i]
  {
    if s == [] {
    } else {
      SplitMeaning(s[1..]);
      var r := Split(s[1..]);
      if s[0] == ';' {
        assert Split(s)[1..] == r;
      } else {
        assert Split(s)[1..] == r[1..];
        assert [s[0]] + s[1..] == s;
      }
    }
  }

  function NonEmpty(pieces: seq<string>): seq<string> {
    if pieces == [] then []
    else if pieces[0] == [] then NonEmpty(pieces[1..])
    else [pieces[0]] + NonEmpty(pieces[1..])
  }

  /** The tokens of a metadata string: empty pieces are none. */
  function Tokens(s: string): seq<string> {
    NonEmpty(Split(s))
  }

  lemma TokensSkip(s: string)
    requires s != [] && s[0] == ';'
    ensures Tokens(s) == Tokens(s[1..])
  {
    assert Split(s)[1..] == Split(s[1..]);
  }

  /** A word up to a semicolon is the first piece. */
  lemma {:induction false} SplitWord(word: string, rest: string)
    requires ';' !in word
    ensures Split(word + [';'] + rest) == [word] + Split(rest)
    ensures Split(word) == [word]
  {
    if word == [] {
      assert [] + [';'] + rest == [';'] + rest && ([';'] + rest)[1..] == rest;
    } else {
      SplitWord(word[1..], rest);
      assert (word + [';'] + rest)[1..] == word[1..] + [';'] + rest;
      assert [word[0]] + word[1..] == word;
    }
  }

  lemma TokensWord(word: string, rest: string)
    requires word != [] && ';' !in word
    ensures Tokens(word + [';'] + rest) == [word] + Tokens(rest)
    ensures Tokens(word) == [word]
  {
    SplitWord(word, rest);
    assert ([word] + Split(rest))[1..] == Split(rest);
    assert NonEmpty([word]) == [word] + NonEmpty([]);
  }

  // ----- attribute and value

  /** The position of the first `c`, or the length. */
  function Find(s: string, c: char): (k: nat)
    ensures k <= |s|
    ensures k < |s| ==> s[k] == c
    ensures c !in s[..k]
    ensures k == |s| <==> c !in s
  {
    if s == [] || s[0] == c then 0 else 1 + Find(s[1..], c)
  }

  lemma {:induction false} FoundAt(word: string, c: char, rest: string)
    requires c !in word
    ensures Find(word + [c] + rest, c) == |word|
  {
    if word == [] {
    } else {
      assert (word + [c] + rest)[1..] == word[1..] + [c] + rest;
      FoundAt(word[1..], c, rest);
    }
  }

  /** What fits into a buffer of `size` characters with the final NUL. */
  function Fit(s: string, size: nat): string
    requires size > 0
  {
    if |s| < size then s else s[..size - 1]
  }

  function Attribute(token: string, size: nat): string
    requires size > 0
  {
    if '=' in token then Fit(token[..Find(token, '=')], size) else []
  }

  function Value(token: string, size: nat): string
    requires size > 0
  {
    if '=' in token then Fit(token[Find(token, '=') + 1..], size) else []
  }

  // ----- numbers

  predicate IsSpace(c: char) {
    c == ' ' || '\t' <= c <= '\r'
  }

  predicate IsDigit(c: char) {
    '0' <= c <= '9'
  }

  function Digit(d: int): char
    requires 0 <= d < 10
  {
    ('0' as int + d) as char
  }

  /** The number the leading digits append to `n`. */
  function Decimal(n: nat, s: string): nat
    decreases |s|
  {
    if s == [] || !IsDigit(s[0]) then n else Decimal(10 * n + (s[0] as int - '0' as int), s[1..])
  }

  /** atoi: white space, a sign, digits. */
  function Atoi(s: string): int {
    if s == [] then 0
    else if IsSpace(s[0]) then Atoi(s[1..])
    else if s[0] == '-' then 0 - Decimal(0, s[1..])
    else if s[0] == '+' then Decimal(0, s[1..])
    else Decimal(0, s)
  }

  // ----- the meaning of a metadata string

  /** One token sets the field it names, if it gives it a value. */
  function Set(f: Fields, token: string): Fields {
    var attribute, value := Attribute(token, BUFFER_SIZE), Value(token, BUFFER_SIZE);
    if value == [] then f
    else if attribute == "hint_id" then f.(hintId := Atoi(value))
    else if attribute == "state" then f.(state := Atoi(value))
    else f
  }

  function SetAll(f: Fields, tokens: seq<string>): Fields
    decreases |tokens|
  {
    if tokens == [] then f else SetAll(Set(f, tokens[0]), tokens[1..])
  }

  /** Split, then fold. */
  function Parsed(f: Fields, s: string): Fields {
    SetAll(f, Tokens(s))
  }

  /** The last non-empty value of an attribute. */
  function LastValue(tokens: seq<string>, name: string): Option<string>
    decreases |tokens|
  {
    if tokens == [] then None
    else
      var n := |tokens| - 1;
      if Attribute(tokens[n], BUFFER_SIZE) == name && Value(tokens[n], BUFFER_SIZE) != []
      then Some(Value(tokens[n], BUFFER_SIZE))
      else LastValue(tokens[..n], name)
  }

  function NumberOr(v: Option<string>, default: int): int {
    match v
    case None => default
    case Some(s) => Atoi(s)
  }

  lemma {:induction false} SetAllLast(f: Fields, tokens: seq<string>, token: string)
    ensures SetAll(f, tokens + [token]) == Set(SetAll(f, tokens), token)
    decreases |tokens|
  {
    hide Set;
    if tokens == [] {
      assert ([] + [token])[1..] == [];
    } else {
      assert (tokens + [token])[1..] == tokens[1..] + [token];
      SetAllLast(Set(f, tokens[0]), tokens[1..], token);
    }
  }

  /** The result is decided by the last non-empty hint_id value and the last non-empty state value. */
  lemma {:induction false} LastOnesDecide(f: Fields, tokens: seq<string>)
    ensures SetAll(f, tokens) == Fields(NumberOr(LastValue(tokens, "hint_id"), f.hintId),
                                        NumberOr(LastValue(tokens, "state"), f.state))
    decreases |tokens|
  {
    if tokens == [] {
    } else {
      var n := |tokens| - 1;
      LastOnesDecide(f, tokens[..n]);
      assert tokens == tokens[..n] + [tokens[n]];
      SetAllLast(f, tokens[..n], tokens[n]);
    }
  }

  // ----- printing and parsing back

  function Digits(n: nat): string {
    if n < 10 then [Digit(n)] else Digits(n / 10) + [Digit(n % 10)]
  }

  function Print(i: int): string {
    if i < 0 then ['-'] + Digits(-i) else Digits(i)
  }

  lemma {:induction false} DecimalOfDigits(n: nat, rest: string)
    ensures Decimal(0, Digits(n) + rest) == Decimal(n, rest)
  {
    if n < 10 {
      assert ([Digit(n)] + rest)[1..] == rest;
    } else {
      var d := Digit(n % 10);
      DecimalOfDigits(n / 10, [d] + rest);
      assert Digits(n) + rest == Digits(n / 10) + ([d] + rest);
      assert ([d] + rest)[1..] == rest;
    }
  }

  lemma {:induction false} DigitsAreDigits(n: nat)
    ensures Digits(n) != [] && forall i :: 0 <= i < |Digits(n)| ==> IsDigit(Digits(n)[i])
  {
    if n < 10 {
    } else {
      DigitsAreDigits(n / 10);
    }
  }

  lemma AtoiOfPrint(i: int)
    ensures Atoi(Print(i)) == i
  {
    var n := if i < 0 then -i else i;
    DecimalOfDigits(n, []);
    DigitsAreDigits(n);
    assert Digits(n) + [] == Digits(n);
    assert (['-'] + Digits(n))[1..] == Digits(n);
  }

  lemma {:induction false} SpacesSkipped(w: string, s: string)
    requires forall k :: 0 <= k < |w| ==> w[k] == ' ' || 9 <= w[k] as int <= 13
    ensures Atoi(w + s) == Atoi(s)
  {
    if w == [] {
      assert w + s == s;
    } else {
      assert (w + s)[1..] == w[1..] + s;
      SpacesSkipped(w[1..], s);
    }
  }

  lemma DigitsThenRest(n: nat, rest: string)
    requires rest == [] || !('0' <= rest[0] <= '9')
    ensures Decimal(0, Digits(n) + rest) == n && Digits(n) + rest != [] && IsDigit((Digits(n) + rest)[0])
  {
    DecimalOfDigits(n, rest);
    DigitsAreDigits(n);
    hide Digits;
    assert (Digits(n) + rest)[0] == Digits(n)[0];
  }

  lemma SignThenDigits(sign: char, t: string)
    requires t != [] && IsDigit(t[0])
    ensures Atoi(t) == Decimal(0, t)
    ensures sign == '-' ==> Atoi([sign] + t) == 0 - Decimal(0, t)
    ensures sign == '+' ==> Atoi([sign] + t) == Decimal(0, t)
  {
    assert ([sign] + t)[0] == sign && ([sign] + t)[1..] == t;
  }

  lemma NumberThenRest(i: int, rest: string)
    requires rest == [] || !('0' <= rest[0] <= '9')
    ensures Atoi(Print(i) + rest) == i
    ensures i >= 0 ==> Atoi("+" + (Print(i) + rest)) == i
  {
    hide Atoi, Decimal, Digits, IsDigit;
    var n := if i < 0 then -i else i;
    var t := Digits(n) + rest;
    DigitsThenRest(n, rest);
    SignThenDigits('-', t);
    SignThenDigits('+', t);
    assert Print(i) + rest == if i < 0 then ['-'] + t else t;
    assert "+" + t == ['+'] + t;
  }

  /** atoi skips white space, takes a sign and digits, and ignores what follows them. */
  lemma AtoiReads(w: string, plus: bool, i: int, rest: string)
    requires forall k :: 0 <= k < |w| ==> w[k] == ' ' || 9 <= w[k] as int <= 13
    requires plus ==> i >= 0
    requires rest == [] || !('0' <= rest[0] <= '9')
    ensures Atoi(w + ((if plus then "+" else "") + (Print(i) + rest))) == i
  {
    hide Atoi;
    NumberThenRest(i, rest);
    assert "" + (Print(i) + rest) == Print(i) + rest;
    SpacesSkipped(w, (if plus then "+" else "") + (Print(i) + rest));
  }

  function Power(k: nat): nat {
    if k == 0 then 1 else 10 * Power(k - 1)
  }

  lemma {:induction false} DigitsShort(n: nat, k: nat)
    requires k > 0 && n < Power(k)
    ensures |Digits(n)| <= k
  {
    if n < 10 {
    } else {
      DigitsShort(n / 10, k - 1);
    }
  }

  predicate IsInt32(i: int) {
    -0x8000_0000 <= i < 0x8000_0000
  }

  lemma PrintFits(i: int)
    requires IsInt32(i)
    ensures Print(i) != [] && |Print(i)| < BUFFER_SIZE && ';' !in Print(i)
  {
    var n := if i < 0 then -i else i;
    assert Power(10) == 10_000_000_000;
    DigitsShort(n, 10);
    DigitsAreDigits(n);
  }

  /** An attribute to be written. */
  datatype Item = Item(name: string, value: string)

  function Rendered(item: Item): string {
    item.name + ['='] + item.value
  }

  /** Attributes written one after the other, with semicolons between them. */
  function Text(items: seq<Item>): string {
    if items == [] then []
    else if |items| == 1 then Rendered(items[0])
    else Rendered(items[0]) + [';'] + Text(items[1..])
  }

  predicate Clean(item: Item) {
    '=' !in item.name && ';' !in item.name && ';' !in item.value
  }

  predicate Unknown(item: Item) {
    Clean(item) && item.name != "hint_id" && item.name != "state"
  }

  function AllRendered(items: seq<Item>): (r: seq<string>)
    ensures |r| == |items|
    ensures forall i :: 0 <= i < |items| ==> r[i] == Rendered(items[i])
  {
    seq(|items|, i requires 0 <= i < |items| => Rendered(items[i]))
  }

  /** What is written are the tokens that are read. */
  lemma {:induction false} TokensOfText(items: seq<Item>)
    requires forall i :: 0 <= i < |items| ==> Clean(items[i])
    ensures Tokens(Text(items)) == AllRendered(items)
    decreases |items|
  {
    if items == [] {
      assert Split([])[1..] == [];
    } else {
      TokensOfText(items[1..]);
      TokensWord(Rendered(items[0]), Text(items[1..]));
      assert AllRendered(items) == [Rendered(items[0])] + AllRendered(items[1..]);
    }
  }

  /** A name shorter than the buffer is read back exactly when it was written; a longer one never is one. A value is
      read back up to its first 1023 characters. */
  lemma ReadBack(item: Item, name: string)
    requires Clean(item) && |name| < BUFFER_SIZE - 1
    ensures Attribute(Rendered(item), BUFFER_SIZE) == name <==> item.name == name
    ensures Value(Rendered(item), BUFFER_SIZE) == if |item.value| <= 1023 then item.value else item.value[..1023]
  {
    var token, k := Rendered(item), |item.name|;
    FoundAt(item.name, '=', item.value);
    assert token[k] == '=' && token[..k] == item.name && token[k + 1..] == item.value;
  }

  lemma UnknownSetsNothing(f: Fields, item: Item)
    requires Unknown(item)
    ensures Set(f, Rendered(item)) == f
  {
    ReadBack(item, "hint_id");
    ReadBack(item, "state");
  }

  lemma {:induction false} UnknownSetNothing(f: Fields, items: seq<Item>, rest: seq<Item>)
    requires forall i :: 0 <= i < |items| ==> Unknown(items[i])
    ensures SetAll(f, AllRendered(items + rest)) == SetAll(f, AllRendered(rest))
    decreases |items|
  {
    hide Set;
    hide Unknown;
    hide Rendered;
    if items == [] {
      assert [] + rest == rest;
    } else {
      UnknownSetsNothing(f, items[0]);
      UnknownSetNothing(f, items[1..], rest);
      assert (items + rest)[1..] == items[1..] + rest;
      assert AllRendered(items + rest)[1..] == AllRendered(items[1..] + rest);
    }
  }

  lemma KnownSetsField(f: Fields, item: Item, i: int)
    requires item == Item("hint_id", Print(i)) || item == Item("state", Print(i))
    requires IsInt32(i)
    ensures Set(f, Rendered(item)) == if item.name == "hint_id" then f.(hintId := i) else f.(state := i)
  {
    hide Print, Atoi, Attribute, Value, Rendered;
    PrintFits(i);
    AtoiOfPrint(i);
    ReadBack(item, "hint_id");
    ReadBack(item, "state");
  }

  lemma KnownSets(f: Fields, item: Item, i: int, rest: seq<Item>)
    requires item == Item("hint_id", Print(i)) || item == Item("state", Print(i))
    requires IsInt32(i)
    ensures SetAll(f, AllRendered([item] + rest))
         == SetAll(if item.name == "hint_id" then f.(hintId := i) else f.(state := i), AllRendered(rest))
  {
    hide Print, Atoi, Set, Rendered;
    KnownSetsField(f, item, i);
    assert ([item] + rest)[1..] == rest;
    assert AllRendered([item] + rest)[1..] == AllRendered(rest);
  }

  /** The two attributes with unknown ones around them, in either order. */
  function Written(hintId: int, state: int, stateFirst: bool,
                   pre: seq<Item>, mid: seq<Item>, post: seq<Item>): seq<Item>
  {
    var h, s := Item("hint_id", Print(hintId)), Item("state", Print(state));
    pre + ([if stateFirst then s else h] + (mid + ([if stateFirst then h else s] + (post + []))))
  }

  lemma WrittenIsClean(hintId: int, state: int, stateFirst: bool, pre: seq<Item>, mid: seq<Item>, post: seq<Item>)
    requires IsInt32(hintId) && IsInt32(state)
    requires forall i :: 0 <= i < |pre| ==> Unknown(pre[i])
    requires forall i :: 0 <= i < |mid| ==> Unknown(mid[i])
    requires forall i :: 0 <= i < |post| ==> Unknown(post[i])
    ensures var items := Written(hintId, state, stateFirst, pre, mid, post);
      forall i :: 0 <= i < |items| ==> Clean(items[i])
  {
    PrintFits(hintId);
    PrintFits(state);
  }

  /** Any two 32-bit numbers written as attributes, in either order and with any unknown attributes before, between
      and after them, are parsed back. */
  lemma PrintThenParse(f: Fields, hintId: int, state: int, stateFirst: bool,
                       pre: seq<Item>, mid: seq<Item>, post: seq<Item>)
    requires IsInt32(hintId) && IsInt32(state)
    requires forall i :: 0 <= i < |pre| ==> Unknown(pre[i])
    requires forall i :: 0 <= i < |mid| ==> Unknown(mid[i])
    requires forall i :: 0 <= i < |post| ==> Unknown(post[i])
    ensures Parsed(f, Text(Written(hintId, state, stateFirst, pre, mid, post))) == Fields(hintId, state)
  {
    var items := Written(hintId, state, stateFirst, pre, mid, post);
    var h, s := Item("hint_id", Print(hintId)), Item("state", Print(state));
    var first, second := if stateFirst then s else h, if stateFirst then h else s;
    var i, j := if stateFirst then state else hintId, if stateFirst then hintId else state;
    WrittenIsClean(hintId, state, stateFirst, pre, mid, post);
    TokensOfText(items);
    UnknownSetNothing(f, pre, [first] + (mid + ([second] + (post + []))));
    KnownSets(f, first, i, mid + ([second] + (post + [])));
    var g := if stateFirst then f.(state := state) else f.(hintId := hintId);
    UnknownSetNothing(g, mid, [second] + (post + []));
    KnownSets(g, second, j, post + []);
    UnknownSetNothing(Fields(hintId, state), post, []);
  }
}
