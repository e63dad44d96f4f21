/** Simple regular expressions: the characters, the grammar as abstract syntax, and the validator
    that accepts exactly the rendered abstract syntax.  Strings are C strings, so they contain no
    NUL and reading one past the end gives NUL. */
module RegexSyntax {
  const NUL: char := '\0'

  ghost predicate IsCString(s: string) {
    NUL !in s
  }

  function At(s: string, i: nat): char {
    if i < |s| then s[i] else NUL
  }

  predicate IsInSet(ch: char, s: set<char>) { ch != NUL && ch in s }

  predicate IsAsciiDigit(ch: char) { '0' <= ch <= '9' }

  // The four ASCII ranges that the source lists character by character.
  predicate IsAsciiPunct(ch: char) {
    '!' <= ch <= '/' || ':' <= ch <= '@' || '[' <= ch <= '`' || '{' <= ch <= '~'
  }

  predicate IsRepeat(ch: char) { IsInSet(ch, {'?', '*', '+'}) }

  predicate IsAsciiWhiteSpace(ch: char) { IsInSet(ch, {' ', '\U{0C}', '\n', '\r', '\t', '\U{0B}'}) }

  predicate IsAsciiWordChar(ch: char) {
    'a' <= ch <= 'z' || 'A' <= ch <= 'Z' || '0' <= ch <= '9' || ch == '_'
  }

  predicate IsValidEscape(c: char) {
    IsAsciiPunct(c) || IsInSet(c, {'d', 'D', 'f', 'n', 'r', 's', 'S', 't', 'v', 'w', 'W'})
  }

  predicate AtomMatchesChar(escaped: bool, patternChar: char, ch: char) {
    if escaped then
      match patternChar
      case 'd' => IsAsciiDigit(ch)
      case 'D' => !IsAsciiDigit(ch)
      case 'f' => ch == '\U{0C}'
      case 'n' => ch == '\n'
      case 'r' => ch == '\r'
      case 's' => IsAsciiWhiteSpace(ch)
      case 'S' => !IsAsciiWhiteSpace(ch)
      case 't' => ch == '\t'
      case 'v' => ch == '\U{0B}'
      case 'w' => IsAsciiWordChar(ch)
      case 'W' => !IsAsciiWordChar(ch)
      case _ => IsAsciiPunct(patternChar) && patternChar == ch
    else
      (patternChar == '.' && ch != '\n') || patternChar == ch
  }

  // ---- The character classes, written out ----

  const PUNCTUATION: string := "^-!\"#$%&'()*+,./:;<=>?@[\\]_`{|}~"
  const DIGITS: string := "0123456789"
  const LOWER: string := "abcdefghijklmnopqrstuvwxyz"
  const UPPER: string := "ABCDEFGHIJKLMNOPQRSTUVWXYZ"

  lemma PunctuationIsTheList(ch: char)
    ensures IsAsciiPunct(ch) <==> ch in PUNCTUATION
  {
  }

  lemma DigitsAreTheList(ch: char)
    ensures IsAsciiDigit(ch) <==> ch in DIGITS
  {
  }

  lemma LettersAreTheLists(ch: char)
    ensures 'a' <= ch <= 'z' <==> ch in LOWER
    ensures 'A' <= ch <= 'Z' <==> ch in UPPER
  {
  }

  /** What may follow a backslash. */
  lemma EscapesAreTheList(c: char)
    ensures IsValidEscape(c) <==> c in PUNCTUATION || c in "dDfnrsStvwW"
  {
    PunctuationIsTheList(c);
  }

  /** The characters an escape sequence matches. */
  lemma EscapeMatches(c: char, ch: char)
    requires IsValidEscape(c)
    ensures AtomMatchesChar(true, c, ch) <==>
            match c
            case 'd' => ch in DIGITS
            case 'D' => ch !in DIGITS
            case 'w' => ch in LOWER || ch in UPPER || ch in DIGITS || ch == '_'
            case 'W' => ch !in LOWER && ch !in UPPER && ch !in DIGITS && ch != '_'
            case 's' => ch in [' ', '\U{0C}', '\n', '\r', '\t', '\U{0B}']
            case 'S' => ch !in [' ', '\U{0C}', '\n', '\r', '\t', '\U{0B}']
            case 'f' => ch == '\U{0C}'
            case 'n' => ch == '\n'
            case 'r' => ch == '\r'
            case 't' => ch == '\t'
            case 'v' => ch == '\U{0B}'
            case _ => ch == c
  {
    DigitsAreTheList(ch);
    LettersAreTheLists(ch);
  }

  /** A dot matches all but a newline, any other character itself. */
  lemma PlainMatches(c: char, ch: char)
    ensures AtomMatchesChar(false, c, ch) <==> if c == '.' then ch != '\n' else ch == c
  {
  }

  // ---- Abstract syntax ----

  datatype Atom = Atom(escaped: bool, c: char)

  datatype Item = One(atom: Atom) | Repeat(atom: Atom, op: char)

  datatype Regex = Regex(start: bool, items: seq<Item>, end: bool)

  predicate IsSpecial(ch: char) {
    ch == '\\' || IsInSet(ch, {'^', '$', '(', ')', '[', ']', '{', '}', '|', '?', '*', '+'})
  }

  predicate ValidAtom(a: Atom) {
    if a.escaped then IsValidEscape(a.c) else a.c != NUL && !IsSpecial(a.c)
  }

  /** Which characters stand for themselves or for a class without a backslash, and which repeat. */
  lemma AtomsAreTheRest(c: char)
    ensures ValidAtom(Atom(false, c)) <==> c != NUL && c !in "\\^$()[]{}|?*+"
    ensures IsRepeat(c) <==> c in "?*+"
  {
  }

  predicate ValidItem(item: Item) {
    ValidAtom(item.atom) && (item.Repeat? ==> IsRepeat(item.op))
  }

  predicate ValidItems(items: seq<Item>) {
    forall item | item in items :: ValidItem(item)
  }

  function RenderAtom(a: Atom): string {
    if a.escaped then ['\\', a.c] else [a.c]
  }

  function RenderItem(item: Item): string {
    RenderAtom(item.atom) + if item.Repeat? then [item.op] else []
  }

  /** Everything after a leading `^`. */
  function RenderBody(items: seq<Item>, end: bool): string {
    if items == [] then (if end then "$" else "") else RenderItem(items[0]) + RenderBody(items[1..], end)
  }

  function Render(r: Regex): string {
    (if r.start then "^" else "") + RenderBody(r.items, r.end)
  }

  /** The text of some regular expression. */
  ghost predicate IsRegex(s: string) {
    exists r: Regex :: ValidItems(r.items) && Render(r) == s
  }

  // ---- The validator ----

  /** What the validation loop still demands of the text from some position on; `repeatable`
      says that a repetition may come first. */
  predicate Acceptable(s: string, atStart: bool, repeatable: bool)
    decreases |s|
  {
    if s == "" then true
    else if s[0] == '\\' then |s| > 1 && IsValidEscape(s[1]) && Acceptable(s[2..], false, true)
    else PlainAllowed(s[0], atStart, |s| == 1, repeatable) && Acceptable(s[1..], false, AllowsRepeat(s[0]))
  }

  /** A character that is not part of an escape sequence may stand where it stands. */
  predicate PlainAllowed(ch: char, first: bool, last: bool, repeatable: bool) {
    && (ch == '^' ==> first)
    && (ch == '$' ==> last)
    && !IsInSet(ch, {'(', ')', '[', ']', '{', '}', '|'})
    && (IsRepeat(ch) ==> repeatable)
  }

  predicate AllowsRepeat(ch: char) {
    !IsInSet(ch, {'^', '$', '?', '*', '+'})
  }

  /** One turn of the validation loop. */
  lemma AcceptableStep(s: string, i: nat, repeatable: bool)
    requires i < |s|
    ensures s[i] != '\\' ==>
      (Acceptable(s[i..], i == 0, repeatable) <==>
        PlainAllowed(s[i], i == 0, i + 1 == |s|, repeatable) && Acceptable(s[i + 1..], false, AllowsRepeat(s[i])))
    ensures s[i] == '\\' ==>
      (Acceptable(s[i..], i == 0, repeatable) <==>
        i + 1 < |s| && IsValidEscape(s[i + 1]) && Acceptable(s[i + 2..], false, true))
  {
    assert s[i..][1..] == s[i + 1..];
    assert i + 1 < |s| ==> s[i..][2..] == s[i + 2..];
  }

  /** The checks on a character that is not part of an escape sequence. */
  method CheckPlain(regex: string, i: nat, prevRepeatable: bool) returns (ok: bool)
    requires IsCString(regex) && i < |regex|
    ensures ok <==> PlainAllowed(regex[i], i == 0, i + 1 == |regex|, prevRepeatable)
  {
    var ch := regex[i];
    ok := true;
    if ch == '^' && i > 0 {
      ok := false;
    } else if ch == '$' && At(regex, i + 1) != NUL {
      ok := false;
    } else if IsInSet(ch, {'(', ')', '[', ']', '{', '}', '|'}) {
      ok := false;
    } else if IsRepeat(ch) && !prevRepeatable {
      ok := false;
    }
  }

  method ValidateRegex(regex: string) returns (valid: bool)
    requires IsCString(regex)
    ensures valid <==> IsRegex(regex)
  {
    var isValid, prevRepeatable := true, false;
    var i := 0;
    while i < |regex|
      invariant 0 <= i <= |regex|
      invariant Acceptable(regex, true, false) <==> isValid && Acceptable(regex[i..], i == 0, prevRepeatable)
      decreases |regex| - i
    {
      AcceptableStep(regex, i, prevRepeatable);
      if regex[i] == '\\' {
        i := i + 1;
        if At(regex, i) == NUL {
          AcceptableIsRendered(regex);
          return false;
        }
        if !IsValidEscape(regex[i]) {
          isValid := false;
        }
        prevRepeatable := true;
      } else {
        var ok := CheckPlain(regex, i, prevRepeatable);
        isValid := isValid && ok;
        prevRepeatable := AllowsRepeat(regex[i]);
      }
      i := i + 1;
    }
    AcceptableIsRendered(regex);
    return isValid;
  }

  // ---- The grammar and the validator agree ----

  /** A repetition may only come first right after an atom, and that is all `repeatable` allows. */
  lemma RepeatableMatters(s: string)
    ensures Acceptable(s, false, false) <==> Acceptable(s, false, true) && (s != "" ==> !IsRepeat(s[0]))
  {
  }

  lemma {:induction false} RenderedBodyAcceptable(items: seq<Item>, end: bool)
    requires ValidItems(items)
    ensures Acceptable(RenderBody(items, end), false, false)
    ensures Acceptable(RenderBody(items, end), true, false)
  {
    if items != [] {
      var rest := RenderBody(items[1..], end);
      RenderedBodyAcceptable(items[1..], end);
      RepeatableMatters(rest);
      ItemAcceptable(items[0], rest, true);
      ItemAcceptable(items[0], rest, false);
    }
  }

  lemma ItemAcceptable(item: Item, rest: string, atStart: bool)
    requires ValidItem(item) && Acceptable(rest, false, false) && Acceptable(rest, false, true)
    ensures Acceptable(RenderItem(item) + rest, atStart, false)
  {
    var s := RenderItem(item) + rest;
    var n := |RenderAtom(item.atom)|;
    if item.Repeat? {
      assert s[n..][1..] == rest && s[n..][0] == item.op;
      assert Acceptable(s[n..], false, true);
    } else {
      assert s[n..] == rest;
    }
  }

  /** Reads the atom and the repetition, if any, at the front of `s`. */
  function ReadItem(s: string): Item
    requires s != "" && (s[0] == '\\' ==> |s| > 1)
  {
    var a := if s[0] == '\\' then Atom(true, s[1]) else Atom(false, s[0]);
    var n := |RenderAtom(a)|;
    if n < |s| && IsRepeat(s[n]) then Repeat(a, s[n]) else One(a)
  }

  lemma ReadItemCorrect(s: string)
    requires IsCString(s) && s != "" && s != "$" && Acceptable(s, false, false)
    ensures ValidItem(ReadItem(s))
    ensures var n := |RenderItem(ReadItem(s))|;
            n <= |s| && s[..n] == RenderItem(ReadItem(s)) && Acceptable(s[n..], false, false)
  {
    var a := ReadItem(s).atom;
    var n := |RenderAtom(a)|;
    assert Acceptable(s[n..], false, true);
    RepeatableMatters(s[n..]);
    if ReadItem(s).Repeat? {
      assert s[n..][1..] == s[n + 1..];
    }
  }

  /** Parsing: an acceptable body is the rendering of some items. */
  lemma {:induction false} ParseBody(s: string) returns (items: seq<Item>, end: bool)
    requires IsCString(s) && Acceptable(s, false, false)
    ensures ValidItems(items) && RenderBody(items, end) == s
    decreases |s|
  {
    if s == "" || s == "$" {
      items, end := [], s == "$";
    } else {
      var item, tail := ParseItem(s);
      var rest;
      rest, end := ParseBody(tail);
      RenderCons(item, rest, end);
      items := [item] + rest;
    }
  }

  lemma ParseItem(s: string) returns (item: Item, tail: string)
    requires IsCString(s) && s != "" && s != "$" && Acceptable(s, false, false)
    ensures ValidItem(item) && s == RenderItem(item) + tail && |tail| < |s|
    ensures IsCString(tail) && Acceptable(tail, false, false)
  {
    ReadItemCorrect(s);
    item := ReadItem(s);
    tail := s[|RenderItem(item)|..];
  }

  lemma RenderCons(item: Item, rest: seq<Item>, end: bool)
    requires ValidItem(item) && ValidItems(rest)
    ensures ValidItems([item] + rest)
    ensures RenderBody([item] + rest, end) == RenderItem(item) + RenderBody(rest, end)
  {
    assert ([item] + rest)[1..] == rest;
  }

  lemma RenderStart(r: Regex)
    ensures r.start ==> Render(r) == ['^'] + RenderBody(r.items, r.end)
    ensures r.start ==> Render(r)[0] == '^' && Render(r)[1..] == RenderBody(r.items, r.end)
    ensures !r.start ==> Render(r) == RenderBody(r.items, r.end)
  {
  }

  lemma Parse(s: string) returns (r: Regex)
    requires IsCString(s) && Acceptable(s, true, false)
    ensures ValidItems(r.items) && Render(r) == s
  {
    if s != "" && s[0] == '^' {
      var items, end := ParseBody(s[1..]);
      r := Regex(true, items, end);
      assert s == [s[0]] + s[1..];
    } else {
      var items, end := ParseBody(s);
      r := Regex(false, items, end);
    }
    RenderStart(r);
  }

  lemma RenderedAcceptable(r: Regex)
    requires ValidItems(r.items)
    ensures Acceptable(Render(r), true, false)
  {
    RenderStart(r);
    RenderedBodyAcceptable(r.items, r.end);
  }

  lemma AcceptableIsRendered(s: string)
    requires IsCString(s)
    ensures Acceptable(s, true, false) <==> IsRegex(s)
  {
    if Acceptable(s, true, false) {
      var r := Parse(s);
    }
    if r: Regex :| ValidItems(r.items) && Render(r) == s {
      RenderedAcceptable(r);
    }
  }

  // ---- Rendering is unambiguous ----

  /** What follows an atom that is not repeated is never a repetition. */
  lemma BodyStart(items: seq<Item>, end: bool)
    requires ValidItems(items)
    ensures !IsRepeat(At(RenderBody(items, end), 0)) && At(RenderBody(items, end), 0) != '^'
    ensures items != [] ==> RenderBody(items, end) != "" && RenderBody(items, end)[0] != '$'
  {
    if items != [] {
      assert ValidItem(items[0]);
    }
  }

  lemma {:induction false} BodyInjective(a: seq<Item>, b: seq<Item>, endA: bool, endB: bool)
    requires ValidItems(a) && ValidItems(b) && RenderBody(a, endA) == RenderBody(b, endB)
    ensures a == b && endA == endB
  {
    BodyStart(a, endA);
    BodyStart(b, endB);
    if a != [] && b != [] {
      BodyStart(a[1..], endA);
      BodyStart(b[1..], endB);
      var s := RenderBody(a, endA);
      ReadBack(a[0], RenderBody(a[1..], endA));
      ReadBack(b[0], RenderBody(b[1..], endB));
      var n := |RenderItem(a[0])|;
      assert s[n..] == RenderBody(a[1..], endA) == RenderBody(b[1..], endB);
      BodyInjective(a[1..], b[1..], endA, endB);
      assert a == [a[0]] + a[1..] && b == [b[0]] + b[1..];
    }
  }

  lemma ReadBack(item: Item, rest: string)
    requires ValidItem(item) && !IsRepeat(At(rest, 0))
    ensures RenderItem(item) + rest != ""
    ensures (RenderItem(item) + rest)[0] == '\\' ==> |RenderItem(item) + rest| > 1
    ensures ReadItem(RenderItem(item) + rest) == item
  {
  }

  /** A text is the rendering of at most one regular expression. */
  lemma RenderInjective(a: Regex, b: Regex)
    requires ValidItems(a.items) && ValidItems(b.items) && Render(a) == Render(b)
    ensures a == b
  {
    BodyStart(a.items, a.end);
    BodyStart(b.items, b.end);
    RenderStart(a);
    RenderStart(b);
    BodyInjective(a.items, b.items, a.end, b.end);
  }
}
