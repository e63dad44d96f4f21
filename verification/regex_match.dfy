/** The backtracking matcher against the language a simple regular expression denotes. */
module RegexMatch {
  import opened RegexSyntax

  // ---- The language ----

  predicate AllowsCount(op: char, k: nat) {
    match op
    case '?' => k <= 1
    case '+' => k >= 1
    case _ => true
  }

  predicate Matches(a: Atom, ch: char) {
    AtomMatchesChar(a.escaped, a.c, ch)
  }

  /** `w` is `k` characters that match the atom, then a word of the remaining items. */
  ghost predicate SplitsAt(a: Atom, rest: seq<Item>, w: string, k: nat)
    decreases rest, 1
  {
    k <= |w| && (forall i | 0 <= i < k :: Matches(a, w[i])) && InLanguage(rest, w[k..])
  }

  /** The words the items denote one after another. */
  ghost predicate InLanguage(items: seq<Item>, w: string)
    decreases items, 0
  {
    if items == [] then w == ""
    else if items[0].One? then SplitsAt(items[0].atom, items[1..], w, 1)
    else exists k: nat :: AllowsCount(items[0].op, k) && SplitsAt(items[0].atom, items[1..], w, k)
  }

  /** A single item denotes one matching character, or as many as its repetition says. */
  lemma WordsOfItem(item: Item, w: string)
    requires ValidItem(item)
    ensures InLanguage([item], w) <==>
            && (forall ch | ch in w :: Matches(item.atom, ch))
            && (match item
                case One(_) => |w| == 1
                case Repeat(_, op) => (op == '?' ==> |w| <= 1) && (op == '+' ==> |w| >= 1))
  {
    assert [item][1..] == [];
    forall k: nat ensures SplitsAt(item.atom, [], w, k) <==> k == |w| && forall ch | ch in w :: Matches(item.atom, ch) {
      SplitsAtEnd(item.atom, w, k);
    }
    if item.Repeat? && AllowsCount(item.op, |w|) && SplitsAt(item.atom, [], w, |w|) {
      assert InLanguage([item], w);
    }
  }

  lemma SplitsAtEnd(a: Atom, w: string, k: nat)
    ensures SplitsAt(a, [], w, k) <==> k == |w| && forall ch | ch in w :: Matches(a, ch)
  {
    if k == |w| && forall i | 0 <= i < k :: Matches(a, w[i]) {
      forall ch | ch in w ensures Matches(a, ch) {
        var i :| 0 <= i < |w| && w[i] == ch;
      }
    }
  }

  /** Items one after another denote words one after another. */
  lemma {:induction false} WordsConcatenate(xs: seq<Item>, ys: seq<Item>, w: string)
    ensures InLanguage(xs + ys, w) <==> exists n | 0 <= n <= |w| :: InLanguage(xs, w[..n]) && InLanguage(ys, w[n..])
  {
    if xs == [] {
      assert xs + ys == ys && w[..0] == "" && w[0..] == w;
    } else {
      assert (xs + ys)[1..] == xs[1..] + ys;
      forall k: nat ensures SplitsAt(xs[0].atom, xs[1..] + ys, w, k) <==>
            exists n | 0 <= n <= |w| :: SplitsAt(xs[0].atom, xs[1..], w[..n], k) && InLanguage(ys, w[n..])
      {
        if k <= |w| {
          WordsConcatenate(xs[1..], ys, w[k..]);
        }
        SplitConcatenates(xs[0].atom, xs[1..], ys, w, k);
      }
    }
  }

  lemma SplitConcatenates(a: Atom, xs: seq<Item>, ys: seq<Item>, w: string, k: nat)
    requires k <= |w| ==>
      (InLanguage(xs + ys, w[k..]) <==>
        exists m | 0 <= m <= |w[k..]| :: InLanguage(xs, w[k..][..m]) && InLanguage(ys, w[k..][m..]))
    ensures SplitsAt(a, xs + ys, w, k) <==>
            exists n | 0 <= n <= |w| :: SplitsAt(a, xs, w[..n], k) && InLanguage(ys, w[n..])
  {
    if SplitsAt(a, xs + ys, w, k) {
      var m :| 0 <= m <= |w[k..]| && InLanguage(xs, w[k..][..m]) && InLanguage(ys, w[k..][m..]);
      assert w[..k + m][k..] == w[k..][..m] && w[k + m..] == w[k..][m..];
      assert SplitsAt(a, xs, w[..k + m], k);
    }
    if n :| 0 <= n <= |w| && SplitsAt(a, xs, w[..n], k) && InLanguage(ys, w[n..]) {
      assert w[..n][k..] == w[k..][..n - k] && w[n..] == w[k..][n - k..];
      assert forall i | 0 <= i < k :: w[..n][i] == w[i];
    }
  }

  /** Some prefix of `s`, all of it if `end`, is a word of the items. */
  ghost predicate PrefixMatches(items: seq<Item>, end: bool, s: string) {
    exists n | 0 <= n <= |s| :: (end ==> n == |s|) && InLanguage(items, s[..n])
  }

  /** Some substring of `s`, placed as the anchors demand, is a word of the regular expression. */
  ghost predicate Denotes(r: Regex, s: string) {
    exists i, j | 0 <= i <= j <= |s| :: (r.start ==> i == 0) && (r.end ==> j == |s|) && InLanguage(r.items, s[i..j])
  }

  // ---- How a prefix match starts ----

  /** After `k` characters for the atom, the rest of `s` starts with the remaining items. */
  ghost predicate TakesCount(a: Atom, rest: seq<Item>, end: bool, s: string, k: nat) {
    k <= |s| && (forall i | 0 <= i < k :: Matches(a, s[i])) && PrefixMatches(rest, end, s[k..])
  }

  lemma SplitPrefix(a: Atom, rest: seq<Item>, end: bool, s: string, k: nat)
    ensures TakesCount(a, rest, end, s, k) <==>
            exists n | 0 <= n <= |s| :: (end ==> n == |s|) && SplitsAt(a, rest, s[..n], k)
  {
    if n :| 0 <= n <= |s| && (end ==> n == |s|) && SplitsAt(a, rest, s[..n], k) {
      assert s[..n][k..] == s[k..][..n - k];
      assert forall i | 0 <= i < k :: s[..n][i] == s[i];
    }
    if TakesCount(a, rest, end, s, k) {
      var m :| 0 <= m <= |s[k..]| && (end ==> m == |s[k..]|) && InLanguage(rest, s[k..][..m]);
      assert s[..k + m][k..] == s[k..][..m];
      assert SplitsAt(a, rest, s[..k + m], k);
    }
  }

  lemma PrefixOfItem(item: Item, rest: seq<Item>, end: bool, s: string)
    ensures PrefixMatches([item] + rest, end, s) <==>
            if item.One? then TakesCount(item.atom, rest, end, s, 1)
            else exists k: nat :: AllowsCount(item.op, k) && TakesCount(item.atom, rest, end, s, k)
  {
    assert ([item] + rest)[1..] == rest;
    if item.One? {
      SplitPrefix(item.atom, rest, end, s, 1);
    } else {
      forall k: nat ensures TakesCount(item.atom, rest, end, s, k) <==>
            exists n | 0 <= n <= |s| :: (end ==> n == |s|) && SplitsAt(item.atom, rest, s[..n], k)
      {
        SplitPrefix(item.atom, rest, end, s, k);
      }
    }
  }

  // ---- The matcher ----

  // The largest size_t minus one: more repetitions than any string has characters.
  const MAX_COUNT: nat := 0xFFFF_FFFF_FFFF_FFFE

  /** Tries repetition counts from the smallest up; the first that works is as good as any. */
  method MatchRepetitionAndRegexAtHead(escaped: bool, c: char, repeat: char, regex: string, str: string,
                                       ghost rest: seq<Item>, ghost end: bool)
    returns (found: bool)
    requires IsCString(str) && |str| <= MAX_COUNT
    requires IsRepeat(repeat) && ValidItems(rest) && regex == RenderBody(rest, end)
    ensures found <==> exists k: nat :: AllowsCount(repeat, k) && TakesCount(Atom(escaped, c), rest, end, str, k)
    decreases |regex|, 1
  {
    var minCount := if repeat == '+' then 1 else 0;
    var maxCount := if repeat == '?' then 1 else MAX_COUNT;
    var i := 0;
    while i <= maxCount
      invariant 0 <= i <= |str|
      invariant forall j | 0 <= j < i :: Matches(Atom(escaped, c), str[j])
      invariant forall k: nat | k < i && AllowsCount(repeat, k) :: !TakesCount(Atom(escaped, c), rest, end, str, k)
      decreases |str| - i
    {
      if i >= minCount {
        var tail := MatchRegexAtHead(regex, str[i..], rest, end);
        if tail {
          assert AllowsCount(repeat, i) && TakesCount(Atom(escaped, c), rest, end, str, i);
          return true;
        }
      }
      if At(str, i) == NUL || !AtomMatchesChar(escaped, c, str[i]) {
        return false;
      }
      i := i + 1;
    }
    return false;
  }

  method MatchRegexAtHead(regex: string, str: string, ghost items: seq<Item>, ghost end: bool) returns (found: bool)
    requires IsCString(str) && |str| <= MAX_COUNT
    requires ValidItems(items) && regex == RenderBody(items, end)
    ensures found <==> PrefixMatches(items, end, str)
    decreases |regex|, 0
  {
    BodyStart(items, end);
    if regex == "" {
      assert InLanguage(items, str[..0]);
      return true;
    }
    if regex[0] == '$' {
      assert str == "" ==> InLanguage(items, str[..0]);
      return str == "";
    }
    ghost var rest := items[1..];
    BodyStart(rest, end);
    PrefixOfItem(items[0], rest, end, str);
    assert items == [items[0]] + rest;
    assert ValidItem(items[0]);
    var escaped := regex[0] == '\\';
    var at := if escaped then 1 else 0;
    ghost var n := |RenderItem(items[0])|;
    assert regex[n..] == RenderBody(rest, end);
    if IsRepeat(At(regex, at + 1)) {
      found := MatchRepetitionAndRegexAtHead(escaped, regex[at], regex[at + 1], regex[at + 2..], str, rest, end);
    } else if str != "" && AtomMatchesChar(escaped, regex[at], str[0]) {
      found := MatchRegexAtHead(regex[at + 1..], str[1..], rest, end);
    } else {
      found := false;
    }
  }

  method MatchRegexAnywhere(regex: string, str: string, ghost r: Regex) returns (found: bool)
    requires IsCString(str) && |str| <= MAX_COUNT
    requires ValidItems(r.items) && regex == Render(r)
    ensures found <==> Denotes(r, str)
  {
    RenderStart(r);
    BodyStart(r.items, r.end);
    if regex != "" && regex[0] == '^' {
      found := MatchRegexAtHead(regex[1..], str, r.items, r.end);
      DenotesAt(r, str);
      assert str[0..] == str;
      return;
    }
    DenotesAt(r, str);
    var i := 0;
    while true
      invariant 0 <= i <= |str|
      invariant forall j | 0 <= j < i :: !PrefixMatches(r.items, r.end, str[j..])
      decreases |str| - i
    {
      found := MatchRegexAtHead(regex, str[i..], r.items, r.end);
      if found {
        return;
      }
      if At(str, i) == NUL {
        break;
      }
      i := i + 1;
    }
    found := false;
  }

  /** A match somewhere is a prefix match of some suffix. */
  lemma DenotesAt(r: Regex, s: string)
    ensures Denotes(r, s) <==>
            exists i | 0 <= i <= |s| :: (r.start ==> i == 0) && PrefixMatches(r.items, r.end, s[i..])
  {
    if i, j :| 0 <= i <= j <= |s| && (r.start ==> i == 0) && (r.end ==> j == |s|) && InLanguage(r.items, s[i..j]) {
      assert s[i..][..j - i] == s[i..j];
    }
    if i :| 0 <= i <= |s| && (r.start ==> i == 0) && PrefixMatches(r.items, r.end, s[i..]) {
      var n :| 0 <= n <= |s[i..]| && (r.end ==> n == |s[i..]|) && InLanguage(r.items, s[i..][..n]);
      assert s[i..][..n] == s[i..i + n];
    }
  }

  /** Validation and matching together: true exactly for a valid pattern that denotes a match. */
  method PartialMatch(pattern: string, str: string) returns (found: bool)
    requires IsCString(pattern) && IsCString(str) && |str| <= MAX_COUNT
    ensures found <==> exists r: Regex :: ValidItems(r.items) && Render(r) == pattern && Denotes(r, str)
  {
    var valid := ValidateRegex(pattern);
    if !valid {
      return false;
    }
    ghost var r: Regex :| ValidItems(r.items) && Render(r) == pattern;
    found := MatchRegexAnywhere(pattern, str, r);
    forall q: Regex | ValidItems(q.items) && Render(q) == pattern ensures q == r {
      RenderInjective(q, r);
    }
  }

  // ---- Full matches ----

  /** The pattern kept for full matches: anchored at both ends, unless it seems to be already. */
  function FullPattern(regex: string): string {
    (if At(regex, 0) != '^' then "^" else "") + regex
    + (if regex == "" || regex[|regex| - 1] != '$' then "$" else "")
  }

  /** The pattern ends in an escaped dollar sign, which looks like an anchor but is not one. */
  predicate EndsInEscapedDollar(r: Regex) {
    !r.end && r.items != [] && r.items[|r.items| - 1] == One(Atom(true, '$'))
  }

  function Full(r: Regex): Regex {
    Regex(true, r.items, !EndsInEscapedDollar(r))
  }

  lemma {:induction false} BodyEnd(items: seq<Item>, end: bool)
    requires ValidItems(items) && RenderBody(items, end) != ""
    ensures var s := RenderBody(items, end);
            s[|s| - 1] == '$' <==> end || (items != [] && items[|items| - 1] == One(Atom(true, '$')))
  {
    if items != [] && RenderBody(items[1..], end) != "" {
      BodyEnd(items[1..], end);
      var s, rest := RenderBody(items, end), RenderBody(items[1..], end);
      assert s[|s| - 1] == rest[|rest| - 1];
    } else if items != [] {
      assert ValidItem(items[0]);
      assert items[1..] == [] && !end;
    }
  }

  lemma {:induction false} AppendDollar(items: seq<Item>)
    ensures RenderBody(items, false) + "$" == RenderBody(items, true)
  {
    if items != [] {
      AppendDollar(items[1..]);
      assert RenderItem(items[0]) + RenderBody(items[1..], false) + "$"
          == RenderItem(items[0]) + (RenderBody(items[1..], false) + "$");
    }
  }

  lemma StartAnchored(r: Regex)
    requires ValidItems(r.items)
    ensures (if At(Render(r), 0) != '^' then "^" else "") + Render(r) == "^" + RenderBody(r.items, r.end)
  {
    RenderStart(r);
    BodyStart(r.items, r.end);
  }

  /** The last character of the pattern is a dollar sign exactly when it is anchored or looks so. */
  lemma DollarLast(r: Regex)
    requires ValidItems(r.items)
    ensures Render(r) != "" && Render(r)[|Render(r)| - 1] == '$' <==> r.end || EndsInEscapedDollar(r)
  {
    var body := RenderBody(r.items, r.end);
    RenderStart(r);
    if body != "" {
      BodyEnd(r.items, r.end);
      assert Render(r)[|Render(r)| - 1] == body[|body| - 1];
    }
  }

  lemma FullPatternRenders(r: Regex)
    requires ValidItems(r.items)
    ensures FullPattern(Render(r)) == Render(Full(r))
  {
    StartAnchored(r);
    DollarLast(r);
    AppendDollar(r.items);
    var p, body := Render(r), RenderBody(r.items, r.end);
    var start := if At(p, 0) != '^' then "^" else "";
    if !(r.end || EndsInEscapedDollar(r)) {
      CloseEnd(start, p, body);
    }
  }

  lemma CloseEnd(start: string, p: string, body: string)
    requires start + p == "^" + body
    ensures start + p + "$" == "^" + (body + "$")
  {
  }

  method FullMatch(pattern: string, str: string) returns (found: bool)
    requires IsCString(pattern) && IsCString(str) && |str| <= MAX_COUNT
    ensures found <==> exists r: Regex :: ValidItems(r.items) && Render(r) == pattern && Denotes(Full(r), str)
  {
    var valid := ValidateRegex(pattern);
    if !valid {
      return false;
    }
    ghost var r: Regex :| ValidItems(r.items) && Render(r) == pattern;
    FullPatternRenders(r);
    found := MatchRegexAnywhere(FullPattern(pattern), str, Full(r));
    forall q: Regex | ValidItems(q.items) && Render(q) == pattern ensures q == r {
      RenderInjective(q, r);
    }
  }

  lemma MatchingChar(a: Atom) returns (ch: char)
    requires ValidAtom(a)
    ensures ch != NUL && Matches(a, ch)
  {
    if !a.escaped || IsAsciiPunct(a.c) {
      ch := a.c;
    } else {
      ch := match a.c
        case 'd' => '0' case 'w' => '0' case 'D' => '!' case 'W' => '!' case 'S' => '!'
        case 'f' => '\U{0C}' case 'r' => '\r' case 't' => '\t' case 'v' => '\U{0B}'
        case _ => '\n';
    }
  }

  /** Every valid regular expression denotes some word. */
  lemma {:induction false} SomeWord(items: seq<Item>) returns (w: string)
    requires ValidItems(items)
    ensures InLanguage(items, w) && IsCString(w)
  {
    if items == [] {
      w := "";
    } else {
      assert ValidItem(items[0]);
      var tail := SomeWord(items[1..]);
      var ch := MatchingChar(items[0].atom);
      w := [ch] + tail;
      assert w[1..] == tail;
      assert SplitsAt(items[0].atom, items[1..], w, 1);
      assert items[0].Repeat? ==> AllowsCount(items[0].op, 1);
    }
  }

  lemma {:induction false} LastIsDollar(items: seq<Item>, w: string)
    requires items != [] && items[|items| - 1] == One(Atom(true, '$')) && InLanguage(items, w)
    ensures w != "" && w[|w| - 1] == '$'
  {
    var k: nat := 1;
    if items[0].Repeat? {
      k :| AllowsCount(items[0].op, k) && SplitsAt(items[0].atom, items[1..], w, k);
    }
    assert SplitsAt(items[0].atom, items[1..], w, k);
    if |items| > 1 {
      LastIsDollar(items[1..], w[k..]);
    } else {
      assert items[1..] == [] && w[k..] == "";
      assert w[0] == '$';
    }
  }

  /** A full match means what it says, for every string, exactly when the pattern does not end in
      an escaped dollar sign. */
  lemma FullMatchIsWholeMatch(r: Regex)
    requires ValidItems(r.items)
    ensures (forall s | IsCString(s) :: Denotes(Full(r), s) <==> InLanguage(r.items, s))
       <==> !EndsInEscapedDollar(r)
  {
    if EndsInEscapedDollar(r) {
      var w := SomeWord(r.items);
      var s := w + "a";
      assert s[0..|w|] == w;
      assert IsCString(s) && Denotes(Full(r), s);
      if InLanguage(r.items, s) {
        LastIsDollar(r.items, s);
      }
    } else {
      forall s | IsCString(s) ensures Denotes(Full(r), s) <==> InLanguage(r.items, s) {
        assert s[0..|s|] == s;
      }
    }
  }

  /** The smallest such pattern: a backslash and a dollar sign.  It matches "$a" in full, which is
      not one dollar sign. */
  lemma EscapedDollarMatchesMore() returns (r: Regex)
    ensures ValidItems(r.items) && Render(r) == "\\$"
    ensures Denotes(Full(r), "$a") && !InLanguage(r.items, "$a")
  {
    r := Regex(false, [One(Atom(true, '$'))], false);
    assert RenderBody(r.items[1..], false) == "";
    var s := "$a";
    assert SplitsAt(r.items[0].atom, r.items[1..], s[0..1], 1);
    assert InLanguage(r.items, s[0..1]);
    if InLanguage(r.items, s) {
      LastIsDollar(r.items, s);
    }
  }
}
