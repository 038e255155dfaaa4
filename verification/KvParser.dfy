/**
 The scan for `key=value` and `key="quoted value"` tokens in a message.
 */
module KvParser {
  import opened Text

  type Fields = map<string, string>

  predicate IsKeyStart(c: char) { IsAlpha(c) || c == '_' }

  predicate NotKeyStart(c: char) { !IsKeyStart(c) }

  predicate IsKeyChar(c: char) { IsAlnum(c) || c == '_' || c == '-' }

  predicate NotQuote(c: char) { c != '"' }

  predicate NotValueEnd(c: char) { !IsSpace(c) && c != ',' }

  /** `unordered_map::emplace`: an existing entry stays. */
  function Emplace(fields: Fields, key: string, value: string): Fields {
    if key in fields then fields else fields[key := value]
  }

  /** One token starting right behind its equals sign: the value and the number of characters used. */
  function ReadValue(s: string): (r: (string, nat))
    requires s != ""
    ensures r.1 <= |s|
  {
    if s[0] == '"' then
      var n := Span(s[1..], NotQuote);
      (s[1..1 + n], if 1 + n < |s| then n + 2 else n + 1)
    else
      var n := Span(s, NotValueEnd);
      (s[..n], n)
  }

  datatype Token =
    | End                                                  // no further pair
    | Word(rest: string)                                   // a word that is not a key
    | Found(key: string, value: string, rest: string)

  /** A word of `k` characters at the start of the text, and the pair it begins, if any. */
  function TokenOf(s: string, k: nat): (t: Token)
    requires 0 < k <= |s|
    ensures !t.End? ==> |t.rest| < |s|
  {
    if k == |s| || s[k] != '=' then Word(s[k..])
    else if k + 1 == |s| then End
    else
      var (value, used) := ReadValue(s[k + 1..]);
      Found(s[..k], value, s[k + 1..][used..])
  }

  lemma KeyHasLength(s: string)
    requires s != "" && IsKeyStart(s[0])
    ensures Span(s, IsKeyChar) > 0
  {
    assert IsKeyChar(s[0]);
  }

  function TokenAtKey(s: string): (t: Token)
    requires s != "" && IsKeyStart(s[0])
    ensures !t.End? ==> |t.rest| < |s|
  {
    KeyHasLength(s);
    TokenOf(s, Span(s, IsKeyChar))
  }

  function NextToken(s: string): (t: Token)
    ensures !t.End? ==> |t.rest| < |s|
  {
    var skip := Span(s, NotKeyStart);
    if skip == |s| then End else TokenAtKey(s[skip..])
  }

  /** What the scan makes of the text `s`, given the fields found so far. */
  function Scan(s: string, fields: Fields): Fields
    decreases |s|
  {
    match NextToken(s)
    case End => fields
    case Word(rest) => Scan(rest, fields)
    case Found(key, value, rest) => Scan(rest, Emplace(fields, LowerAll(key), value))
  }

  /** Moves an index past the characters that satisfy `p`. */
  method SkipWhile(msg: string, start: nat, p: char -> bool) returns (i: nat)
    requires start <= |msg|
    ensures start <= i <= |msg| && i == start + Span(msg[start..], p)
  {
    i := start;
    while i < |msg| && p(msg[i])
      invariant start <= i <= |msg|
      invariant forall j :: start <= j < i ==> p(msg[j])
    {
      i := i + 1;
    }
    assert msg[start..] == msg[start..i] + msg[i..];
    SpanConcat(msg[start..i], msg[i..], p);
  }

  lemma Suffix(msg: string, i: nat, j: nat)
    requires i <= j <= |msg|
    ensures msg[i..][j - i..] == msg[j..] && msg[i..][..j - i] == msg[i..j]
  {
  }

  /** The value behind the equals sign at `start - 1`. */
  method TakeValue(msg: string, start: nat) returns (value: string, i: nat)
    requires start < |msg|
    ensures start <= i <= |msg| && (value, i - start) == ReadValue(msg[start..])
  {
    if msg[start] == '"' {
      Suffix(msg, start, start + 1);
      i := SkipWhile(msg, start + 1, NotQuote);
      value := msg[start + 1..i];
      assert msg[start..][1..1 + (i - start - 1)] == value;
      if i < |msg| {
        i := i + 1;
      }
    } else {
      i := SkipWhile(msg, start, NotValueEnd);
      Suffix(msg, start, i);
      value := msg[start..i];
    }
  }

  /** What follows the word from `keyStart` to `end`. */
  method TakePair(msg: string, keyStart: nat, end: nat) returns (t: Token, i: nat)
    requires keyStart < end <= |msg|
    ensures t == TokenOf(msg[keyStart..], end - keyStart)
    ensures !t.End? ==> keyStart < i <= |msg| && t.rest == msg[i..]
  {
    hide ReadValue;
    i := end;
    Suffix(msg, keyStart, i);
    if i >= |msg| || msg[i] != '=' {
      t := Word(msg[i..]);
      return;
    }
    var key := msg[keyStart..i];
    i := i + 1;
    if i >= |msg| {
      return End, i;
    }
    Suffix(msg, keyStart, i);
    var valueStart := i;
    var value;
    value, i := TakeValue(msg, valueStart);
    Suffix(msg, valueStart, i);
    t := Found(key, value, msg[i..]);
  }

  /** The word that starts at index `keyStart`. */
  method TakeWord(msg: string, keyStart: nat) returns (t: Token, i: nat)
    requires keyStart < |msg| && IsKeyStart(msg[keyStart])
    ensures t == TokenAtKey(msg[keyStart..])
    ensures !t.End? ==> keyStart < i <= |msg| && t.rest == msg[i..]
  {
    hide TokenOf, Span, IsKeyChar, IsKeyStart, ReadValue;
    assert msg[keyStart..][0] == msg[keyStart];
    KeyHasLength(msg[keyStart..]);
    var end := SkipWhile(msg, keyStart, IsKeyChar);
    t, i := TakePair(msg, keyStart, end);
  }

  /** One round of the scan from index `start`. */
  method TakeToken(msg: string, start: nat) returns (t: Token, i: nat)
    requires start < |msg|
    ensures t == NextToken(msg[start..])
    ensures !t.End? ==> start < i <= |msg| && t.rest == msg[i..]
  {
    hide TokenAtKey, IsKeyStart;
    var keyStart := SkipWhile(msg, start, NotKeyStart);
    if keyStart >= |msg| {
      return End, keyStart;
    }
    Suffix(msg, start, keyStart);
    t, i := TakeWord(msg, keyStart);
  }

  /** The scan, as it walks an index over the message. */
  method ExtractKv(msg: string, before: Fields) returns (fields: Fields)
    ensures fields == Scan(msg, before)
  {
    hide NextToken, Emplace, LowerAll;
    fields := before;
    var i := 0;
    while i < |msg|
      invariant i <= |msg|
      invariant Scan(msg, before) == Scan(msg[i..], fields)
    {
      var t;
      t, i := TakeToken(msg, i);
      match t
      case End => return;
      case Word(_) =>
      case Found(key, value, _) => fields := Emplace(fields, LowerAll(key), value);
    }
    ScanNothing(fields);
  }

  lemma ScanNothing(fields: Fields)
    ensures Scan("", fields) == fields
  {
  }

  // ---- Properties of every scan --------------------------------------------------------------

  /** A lower-case letter or underscore, then lower-case letters, digits, underscores and hyphens. */
  predicate FieldName(key: string) {
    && key != "" && ('a' <= key[0] <= 'z' || key[0] == '_')
    && forall i :: 0 <= i < |key| ==>
         'a' <= key[i] <= 'z' || '0' <= key[i] <= '9' || key[i] == '_' || key[i] == '-'
  }

  lemma FoundName(s: string)
    ensures var t := NextToken(s); t.Found? ==> FieldName(LowerAll(t.key))
  {
    hide ReadValue;
  }

  /** No existing field is overwritten, and every new one has a well-formed lower-case name. */
  lemma {:induction false} ScanExtends(s: string, fields: Fields)
    ensures forall k :: k in fields ==> k in Scan(s, fields) && Scan(s, fields)[k] == fields[k]
    ensures forall k :: k in Scan(s, fields) && k !in fields ==> FieldName(k)
    decreases |s|
  {
    FoundName(s);
    hide NextToken, FieldName, LowerAll;
    match NextToken(s)
    case End =>
    case Word(rest) => ScanExtends(rest, fields);
    case Found(key, value, rest) => ScanExtends(rest, Emplace(fields, LowerAll(key), value));
  }

  // ---- Printing and reading back -------------------------------------------------------------

  /** One `key=value` or `key="value"`, and the text that separates it from the next. */
  datatype Pair = Pair(key: string, value: string, quoted: bool, sep: string)

  predicate Letter(c: char) {
    'a' <= c <= 'z' || 'A' <= c <= 'Z'
  }

  predicate KeyText(key: string) {
    && key != "" && (Letter(key[0]) || key[0] == '_')
    && forall i :: 0 <= i < |key| ==> Letter(key[i]) || '0' <= key[i] <= '9' || key[i] == '_' || key[i] == '-'
  }

  /** The characters that end an unquoted value. */
  const ENDS: string := " \t\n\r,\U{0B}\U{0C}"

  /** A quoted value has no quote; an unquoted one is not empty, starts with none and has no end in it. */
  predicate ValueText(value: string, quoted: bool) {
    if quoted then '"' !in value
    else value != "" && value[0] != '"' && forall i :: 0 <= i < |value| ==> value[i] !in ENDS
  }

  predicate Printable(p: Pair) {
    && KeyText(p.key) && ValueText(p.value, p.quoted)
    && (forall i :: 0 <= i < |p.sep| ==> !Letter(p.sep[i]) && p.sep[i] != '_')
    && (p.quoted || (p.sep != "" && p.sep[0] in ENDS))
  }

  function RenderPair(p: Pair): string {
    p.key + ("=" + if p.quoted then "\"" + p.value + "\"" else p.value)
  }

  function Render(pairs: seq<Pair>): string {
    if pairs == [] then ""
    else if |pairs| == 1 then RenderPair(pairs[0])
    else RenderPair(pairs[0]) + (pairs[0].sep + Render(pairs[1..]))
  }

  /** The first pair for a lower-cased key wins, and existing fields win over all. */
  function FirstWins(fields: Fields, pairs: seq<Pair>): Fields
    decreases |pairs|
  {
    if pairs == [] then fields
    else FirstWins(Emplace(fields, LowerAll(pairs[0].key), pairs[0].value), pairs[1..])
  }

  lemma EndsAre(c: char)
    ensures c in ENDS <==> !NotValueEnd(c)
  {
  }

  /** Reading a value back takes exactly its text, and its quotes. */
  lemma ValueBack(value: string, quoted: bool, rest: string)
    requires ValueText(value, quoted)
    requires !quoted && rest != "" ==> rest[0] in ENDS
    ensures var text := if quoted then "\"" + value + "\"" else value;
            ReadValue(text + rest) == (value, |text|)
  {
    if quoted {
      QuotedValue(value, rest);
    } else {
      forall i | 0 <= i < |value|
        ensures NotValueEnd(value[i])
      {
        EndsAre(value[i]);
      }
      if rest != "" {
        EndsAre(rest[0]);
      }
      hide NotValueEnd;
      SpanConcat(value, rest, NotValueEnd);
      assert (value + rest)[..|value|] == value;
    }
  }

  lemma QuotedValue(value: string, rest: string)
    requires '"' !in value
    ensures ReadValue("\"" + value + "\"" + rest) == (value, |value| + 2)
  {
    var s := "\"" + value + "\"" + rest;
    assert s[1..] == value + ("\"" + rest);
    SpanConcat(value, "\"" + rest, NotQuote);
    assert s[1..1 + |value|] == value;
  }

  lemma KeyChars(key: string)
    requires KeyText(key)
    ensures IsKeyStart(key[0]) && forall i :: 0 <= i < |key| ==> IsKeyChar(key[i])
  {
  }

  lemma KeyAhead(key: string, rest: string)
    requires KeyText(key)
    requires rest == "" || !IsKeyChar(rest[0])
    ensures Span(key + rest, NotKeyStart) == 0 && Span(key + rest, IsKeyChar) == |key|
  {
    KeyChars(key);
    hide KeyText;
    SpanConcat(key, rest, IsKeyChar);
    assert (key + rest)[0] == key[0];
  }

  /** What follows a key. */
  lemma TokenAt(key: string, rest: string)
    requires KeyText(key) && (rest == "" || !IsKeyChar(rest[0]))
    ensures NextToken(key + rest) == TokenOf(key + rest, |key|)
  {
    KeyAhead(key, rest);
    assert (key + rest)[0..] == key + rest;
    hide TokenOf, Span, IsKeyChar, KeyText;
  }

  lemma TokenOfPair(p: Pair, rest: string)
    requires Printable(p) && (!p.quoted && rest != "" ==> rest[0] in ENDS)
    ensures NextToken(RenderPair(p) + rest) == Found(p.key, p.value, rest)
  {
    hide ReadValue, NextToken, TokenOf;
    var text := if p.quoted then "\"" + p.value + "\"" else p.value;
    assert RenderPair(p) + rest == p.key + ("=" + (text + rest));
    TokenAt(p.key, "=" + (text + rest));
    ValueBack(p.value, p.quoted, rest);
    PairLayout(p.key, text, rest);
  }

  lemma PairLayout(key: string, text: string, rest: string)
    requires text != "" && ReadValue(text + rest).1 == |text|
    ensures var value := ReadValue(text + rest).0;
            key != "" ==> TokenOf(key + ("=" + (text + rest)), |key|) == Found(key, value, rest)
  {
    hide ReadValue;
    var s := key + ("=" + (text + rest));
    assert s[..|key|] == key && s[|key|] == '=' && s[|key| + 1..] == text + rest && (text + rest)[|text|..] == rest;
  }

  /** The cases in which a key does not begin a closed pair. */
  lemma TokenOfBrokenPair(key: string, value: string, rest: string)
    requires KeyText(key)
    ensures '"' !in value ==> NextToken(key + ("=\"" + value)) == Found(key, value, "")
    ensures NextToken(key + "=") == End
    ensures rest == "" || (!IsKeyChar(rest[0]) && rest[0] != '=') ==> NextToken(key + rest) == Word(rest)
  {
    hide NextToken;
    if '"' !in value {
      var s := key + ("=\"" + value);
      TokenAt(key, "=\"" + value);
      SpanConcat(value, "", NotQuote);
      assert s[..|key|] == key && s[|key| + 1..] == "\"" + value && ("\"" + value)[1..] == value && value + "" == value;
      assert ("\"" + value)[1..1 + |value|] == value && ("\"" + value)[|value| + 1..] == "";
    }
    TokenAt(key, "=");
    assert (key + "=")[|key|] == '=';
    if rest == "" || (!IsKeyChar(rest[0]) && rest[0] != '=') {
      TokenAt(key, rest);
      assert (key + rest)[|key|..] == rest;
    }
  }

  lemma {:induction false} TokenAfterNoise(noise: string, s: string)
    requires forall i :: 0 <= i < |noise| ==> !Letter(noise[i]) && noise[i] != '_'
    ensures NextToken(noise + s) == NextToken(s)
    decreases |noise|
  {
    hide NextToken, Letter;
    if noise == "" {
      assert noise + s == s;
    } else {
      TokenAfterNoise(noise[1..], s);
      assert noise + s == [noise[0]] + (noise[1..] + s);
      TokenAfterOne(noise[0], noise[1..] + s);
    }
  }

  lemma TokenAfterOne(c: char, s: string)
    requires !Letter(c) && c != '_'
    ensures NextToken([c] + s) == NextToken(s)
  {
    hide TokenAtKey;
    var n := Span(s, NotKeyStart);
    assert ([c] + s)[1..] == s;
    assert NotKeyStart(c) && Span([c] + s, NotKeyStart) == 1 + n;
    Suffix([c] + s, 1, 1 + n);
  }

  /**
   Scanning a rendered list of pairs, quoted or not, gives the first-wins map of its lower-cased
   keys, whatever stands between them.
   */
  lemma {:induction false} ScanInvertsRender(pairs: seq<Pair>, fields: Fields)
    requires forall p :: p in pairs ==> Printable(p)
    ensures Scan(Render(pairs), fields) == FirstWins(fields, pairs)
    decreases |pairs|
  {
    hide NextToken, RenderPair, Emplace, LowerAll, KeyText, ValueText, Letter;
    if pairs != [] {
      var p := pairs[0];
      ScanInvertsRender(pairs[1..], Emplace(fields, LowerAll(p.key), p.value));
      if |pairs| == 1 {
        TokenOfPair(p, "");
        assert RenderPair(p) + "" == RenderPair(p);
        assert Render(pairs[1..]) == "";
      } else {
        var rest := Render(pairs[1..]);
        TokenOfPair(p, p.sep + rest);
        TokenAfterNoise(p.sep, rest);
        SameScan(p.sep + rest, rest, Emplace(fields, LowerAll(p.key), p.value));
      }
    } else {
      ScanNothing(fields);
    }
  }

  lemma SameScan(s: string, t: string, fields: Fields)
    requires NextToken(s) == NextToken(t)
    ensures Scan(s, fields) == Scan(t, fields)
  {
    hide NextToken;
  }
}
