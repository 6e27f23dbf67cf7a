/**
 * Key prefixes and the watch patterns of `priv.regex`.
 *
 * `priv.regex(pattern, withPrefix)` builds the JavaScript regular expression
 * `'^' + prefix + pattern.replace('*', '(.*)') + '$'`. Neither the prefix nor
 * the pattern is escaped and `String.prototype.replace` with a string argument
 * rewrites only the first `*`. `Compile` gives the wildcard reading of that
 * expression: the text up to the first `*` as a literal head, the rest as a
 * literal tail, and between them `(.*)`, which (without the `s` flag) accepts
 * any run of characters free of line terminators. The reading agrees with the
 * expression on the inputs with no metacharacter in the prefix and none but
 * at most one `*` in the pattern (`Supported`, `CompileDenotes`); on other
 * prefixes it is the expression with the prefix escaped (see
 * `UnescapedPrefixLeak`).
 */
module Patterns {

  /** Characters that a JavaScript regular expression does not read literally. */
  predicate IsMeta(c: char) {
    c == '\\' || c == '^' || c == '$' || c == '.' || c == '|' || c == '?' || c == '*'
    || c == '+' || c == '(' || c == ')' || c == '[' || c == ']' || c == '{' || c == '}'
  }

  /** The characters `.` does not accept: the ECMAScript line terminators. */
  predicate IsLineTerminator(c: char) {
    c == '\n' || c == '\r' || c == '\U{2028}' || c == '\U{2029}'
  }

  /** What `(.*)` accepts: a run of characters without a line terminator. */
  predicate OneLine(s: string) {
    forall i :: 0 <= i < |s| ==> !IsLineTerminator(s[i])
  }

  predicate Literal(s: string) {
    forall i :: 0 <= i < |s| ==> !IsMeta(s[i])
  }

  predicate AtMostOneStar(pattern: string) {
    forall i, j :: 0 <= i < j < |pattern| && pattern[i] == '*' ==> pattern[j] != '*'
  }

  /** The inputs on which the wildcard reading is the expression's meaning. */
  predicate Supported(prefix: string, pattern: string) {
    && Literal(prefix)
    && (forall i :: 0 <= i < |pattern| && pattern[i] != '*' ==> !IsMeta(pattern[i]))
    && AtMostOneStar(pattern)
  }

  /** `key.indexOf(prefix) === 0` */
  predicate StartsWith(key: string, prefix: string) {
    |prefix| <= |key| && key[..|prefix|] == prefix
  }

  /** `key.substring(prefix.length)`: the empty string when the key is shorter. */
  function Strip(key: string, prefix: string): (r: string)
    ensures StartsWith(key, prefix) ==> prefix + r == key
    ensures |r| <= |key|
  {
    if |prefix| <= |key| then key[|prefix|..] else ""
  }

  /** The index of the first `*`, or `|s|` when there is none. */
  function FirstStar(s: string): (r: nat)
    ensures r <= |s|
    ensures r < |s| ==> s[r] == '*'
    ensures forall j :: 0 <= j < r ==> s[j] != '*'
  {
    if s == [] || s[0] == '*' then 0 else 1 + FirstStar(s[1..])
  }

  /** `s.replace('*', '(.*)')` */
  function ReplaceFirstStar(s: string): string {
    var i := FirstStar(s);
    if i == |s| then s else s[..i] + "(.*)" + s[i + 1..]
  }

  /** The source text of the regular expression `priv.regex` builds. */
  function RegexSource(prefix: string, pattern: string): string {
    "^" + prefix + ReplaceFirstStar(pattern) + "$"
  }

  /**
   * A compiled watch pattern: `Exact(t)` is the expression `^t$`,
   * `Wild(h, t)` is `^h(.*)t$`, with `h` and `t` read literally.
   */
  datatype Matcher = Exact(text: string) | Wild(head: string, tail: string)

  /** `RegExp.prototype.test` of a compiled pattern. */
  predicate Matches(m: Matcher, key: string) {
    match m
    case Exact(t) => key == t
    case Wild(h, t) =>
      && |h| + |t| <= |key| && key[..|h|] == h && key[|key| - |t|..] == t
      && OneLine(key[|h|..|key| - |t|])
  }

  /**
   * `priv.regex`, read as a wildcard pattern.
   * (`priv.regex(pattern, false)` is `Compile("", pattern)`.)
   */
  function Compile(prefix: string, pattern: string): Matcher {
    var i := FirstStar(pattern);
    if i == |pattern| then Exact(prefix + pattern) else Wild(prefix + pattern[..i], pattern[i + 1..])
  }

  /**
   * The source text of the expression is exactly `^` literal `$` for a
   * pattern without `*`, and `^` literal `(.*)` literal `$` otherwise, so the
   * matcher `Compile` gives is the one the expression denotes.
   */
  lemma CompileDenotes(prefix: string, pattern: string)
    requires Supported(prefix, pattern)
    ensures var m := Compile(prefix, pattern);
            && (m.Exact? <==> forall j :: 0 <= j < |pattern| ==> pattern[j] != '*')
            && (m.Exact? ==> Literal(m.text) && RegexSource(prefix, pattern) == "^" + m.text + "$")
            && (m.Wild? ==> Literal(m.head) && Literal(m.tail)
                            && RegexSource(prefix, pattern) == "^" + m.head + "(.*)" + m.tail + "$")
  {
    var i := FirstStar(pattern);
    if i == |pattern| {
      assert ReplaceFirstStar(pattern) == pattern;
    } else {
      assert forall j :: i < j < |pattern| ==> pattern[j] != '*';
      var m := Compile(prefix, pattern);
      assert RegexSource(prefix, pattern) == "^" + prefix + (pattern[..i] + "(.*)" + pattern[i + 1..]) + "$";
      assert Literal(m.head);
    }
  }

  lemma FirstStarOfSplit(a: string, b: string)
    requires AtMostOneStar(a + "*" + b)
    ensures FirstStar(a + "*" + b) == |a|
  {
    var p := a + "*" + b;
    assert p[|a|] == '*';
  }

  /**
   * A pattern `a*b` under prefix `P` accepts exactly the keys `P + a + x + b`
   * whose middle part `x` holds no line terminator.
   */
  lemma WildcardMatch(prefix: string, a: string, b: string, key: string)
    requires AtMostOneStar(a + "*" + b)
    ensures Matches(Compile(prefix, a + "*" + b), key)
        <==> && |prefix| + |a| + |b| <= |key|
             && key == prefix + a + key[|prefix| + |a|..|key| - |b|] + b
             && OneLine(key[|prefix| + |a|..|key| - |b|])
  {
    var p := a + "*" + b;
    FirstStarOfSplit(a, b);
    assert p[..|a|] == a && p[|a| + 1..] == b;
    assert Compile(prefix, p) == Wild(prefix + a, b);
    var h := prefix + a;
    if Matches(Wild(h, b), key) {
      var mid := key[|h|..|key| - |b|];
      assert key == key[..|h|] + mid + key[|key| - |b|..];
    }
    if |h| + |b| <= |key| && key == h + key[|h|..|key| - |b|] + b {
      var mid := key[|h|..|key| - |b|];
      assert key[..|h|] == (h + mid + b)[..|h|] == h;
      assert key[|key| - |b|..] == (h + mid + b)[|h| + |mid|..] == b;
    }
  }

  /** Every one-line middle part is accepted: `user:*` accepts `user:1` and `user:42`. */
  lemma WildcardAccepts(prefix: string, a: string, b: string, x: string)
    requires AtMostOneStar(a + "*" + b) && OneLine(x)
    ensures Matches(Compile(prefix, a + "*" + b), prefix + a + x + b)
  {
    var key := prefix + a + x + b;
    assert key[|prefix| + |a|..|key| - |b|] == x;
    WildcardMatch(prefix, a, b, key);
  }

  /** A pattern without `*` accepts only the prefixed pattern itself. */
  lemma LiteralMatch(prefix: string, pattern: string, key: string)
    requires forall i :: 0 <= i < |pattern| ==> pattern[i] != '*'
    ensures Matches(Compile(prefix, pattern), key) <==> key == prefix + pattern
  {
    assert FirstStar(pattern) == |pattern|;
  }

  /** A key accepted under prefix `P` lies inside the namespace `P`. */
  lemma MatchInScope(prefix: string, pattern: string, key: string)
    requires Matches(Compile(prefix, pattern), key)
    ensures StartsWith(key, prefix)
  {
    var i := FirstStar(pattern);
    if i == |pattern| {
      assert key == prefix + pattern;
      assert key[..|prefix|] == prefix;
    } else {
      var h := prefix + pattern[..i];
      assert key[..|h|] == h;
      assert key[..|prefix|] == key[..|h|][..|prefix|] == h[..|prefix|] == prefix;
    }
  }

  /**
   * `priv.match` tests the unprefixed expression against the stripped keys of
   * `keys()`, `priv.updateEvent` the prefixed one against full keys: the two
   * agree.
   */
  lemma UnprefixedMatch(prefix: string, pattern: string, k: string)
    ensures Matches(Compile("", pattern), k) <==> Matches(Compile(prefix, pattern), prefix + k)
  {
    var i := FirstStar(pattern);
    if i == |pattern| {
      assert Compile("", pattern) == Exact("" + pattern) == Exact(pattern);
      ExactShift(prefix, pattern, k);
    } else {
      var h, t := pattern[..i], pattern[i + 1..];
      assert Compile("", pattern) == Wild("" + h, t) == Wild(h, t);
      assert Compile(prefix, pattern) == Wild(prefix + h, t);
      WildShift(prefix, h, t, k);
    }
  }

  lemma ExactShift(prefix: string, t: string, k: string)
    ensures k == t <==> prefix + k == prefix + t
  {
    if prefix + k == prefix + t {
      assert k == (prefix + k)[|prefix|..] == (prefix + t)[|prefix|..] == t;
    }
  }

  lemma WildShift(prefix: string, h: string, t: string, k: string)
    ensures Matches(Wild(h, t), k) <==> Matches(Wild(prefix + h, t), prefix + k)
  {
    var key := prefix + k;
    if |h| + |t| <= |k| {
      assert key[..|prefix + h|] == prefix + k[..|h|];
      assert key[|key| - |t|..] == k[|k| - |t|..];
      assert key[|prefix + h|..|key| - |t|] == k[|h|..|k| - |t|];
      ExactShift(prefix, h, k[..|h|]);
    }
  }

  /**
   * Namespace isolation: when neither prefix extends the other, no key of the
   * namespace `p1` is accepted by a pattern watched under `p2` read with the
   * prefix escaped.
   */
  lemma PrefixIsolation(p1: string, p2: string, pattern: string, k: string)
    requires !StartsWith(p1, p2) && !StartsWith(p2, p1)
    ensures !Matches(Compile(p2, pattern), p1 + k)
  {
    if Matches(Compile(p2, pattern), p1 + k) {
      MatchInScope(p2, pattern, p1 + k);
    }
  }

  /** `user:*` compiles, without a namespace, to the expression `^user:(.*)$`. */
  lemma UserPattern()
    ensures Supported("", "user:*")
    ensures Compile("", "user:*") == Wild("user:", "")
  {
    assert "user:*" == "user:" + "*" + "";
    assert forall i :: 0 <= i < 5 ==> !IsMeta("user:*"[i]);
    FirstStarOfSplit("user:", "");
  }

  /** The wildcard example of the library's documentation, with no namespace. */
  lemma UserWildcardExample()
    ensures Supported("", "user:*")
    ensures Matches(Compile("", "user:*"), "user:1")
    ensures Matches(Compile("", "user:*"), "user:42")
    ensures !Matches(Compile("", "user:*"), "users:1")
    ensures !Matches(Compile("", "user:*"), "user")
  {
    UserPattern();
    assert "user:1"[..5] == "user:" && "user:42"[..5] == "user:";
    assert "users:1"[4] != "user:"[4];
  }

  /**
   * The expression `watch('*')` builds under `prefix`, `^prefix(.*)$`, as
   * written, for a prefix whose only metacharacter is `.`: each `.` of the
   * unescaped prefix accepts any character but a line terminator.
   */
  predicate WrittenWatchAll(prefix: string, key: string) {
    && |prefix| <= |key|
    && (forall i :: 0 <= i < |prefix| ==> if prefix[i] == '.' then !IsLineTerminator(key[i]) else key[i] == prefix[i])
    && OneLine(key[|prefix|..])
  }

  /**
   * The unescaped prefix leaks: a watcher of `user.` sees the key `users1` of
   * the unrelated namespace `users`; with the prefix escaped it does not.
   */
  lemma UnescapedPrefixLeak()
    ensures !StartsWith("users", "user.") && !StartsWith("user.", "users")
    ensures WrittenWatchAll("user.", "users" + "1")
    ensures !Matches(Compile("user.", "*"), "users" + "1")
  {
    assert "users"[4] != "user."[4];
    assert "*"[..0] == "" && "*"[1..] == "";
    assert ("users" + "1")[..5] == "users";
  }
}
