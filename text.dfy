/** The string primitives the source takes from JavaScript: character classes of its regular
    expressions, parseInt/toString on row numbers, String.prototype.includes, indexOf,
    replace (string pattern), split and join. */
module Text {
  import opened Wrappers

  predicate IsDigit(c: char) { '0' <= c <= '9' }
  predicate IsUpper(c: char) { 'A' <= c <= 'Z' }
  predicate IsLetter(c: char) { 'A' <= c <= 'Z' || 'a' <= c <= 'z' }
  predicate IsAlnum(c: char) { IsLetter(c) || IsDigit(c) }

  /** The class `\s` of JavaScript regular expressions. */
  predicate IsSpace(c: char)
  {
    c == ' ' || c == '\t' || c == '\n' || c == '\U{B}' || c == '\U{C}' || c == '\r'
    || c == '\U{A0}' || c == '\U{1680}' || ('\U{2000}' <= c <= '\U{200A}') || c == '\U{2028}'
    || c == '\U{2029}' || c == '\U{202F}' || c == '\U{205F}' || c == '\U{3000}' || c == '\U{FEFF}'
  }

  predicate AllDigits(s: string) { forall i :: 0 <= i < |s| ==> IsDigit(s[i]) }
  predicate AllUpper(s: string) { forall i :: 0 <= i < |s| ==> IsUpper(s[i]) }

  predicate StartsWith(s: string, c: char) { |s| > 0 && s[0] == c }

  /** parseInt of a string of decimal digits. */
  function DigitsValue(s: string): nat
    requires AllDigits(s)
  {
    if s == [] then 0 else DigitsValue(s[..|s| - 1]) * 10 + (s[|s| - 1] as int - '0' as int)
  }

  /** The decimal text of a non-negative number, as a template literal `${n}` prints it. */
  function NatToString(n: nat): (s: string)
    ensures |s| > 0 && AllDigits(s)
    ensures DigitsValue(s) == n
    ensures s[0] == '0' ==> n == 0
  {
    var d := [(48 + n % 10) as char];
    if n < 10 then d
    else
      var p := NatToString(n / 10);
      assert (p + d)[..|p|] == p;
      p + d
  }

  /** The text JavaScript gives an integer when it is concatenated to a string. */
  function IntToString(n: int): (s: string)
    ensures n >= 0 ==> s == NatToString(n)
  {
    if n < 0 then "-" + NatToString(-n) else NatToString(n)
  }

  /** The character classes of the source's patterns: /[A-Z]+/i, /\d+/ and the case-sensitive [A-Z]+. */
  datatype CharClass = Letters | Digits | Uppers

  predicate InClass(c: char, k: CharClass)
  {
    match k
    case Letters => IsLetter(c)
    case Digits => IsDigit(c)
    case Uppers => IsUpper(c)
  }

  /** The longest prefix of `s` whose characters are all in class `k`. */
  function TakeRun(s: string, k: CharClass): (r: string)
    ensures r <= s
    ensures forall i :: 0 <= i < |r| ==> InClass(r[i], k)
    ensures |r| < |s| ==> !InClass(s[|r|], k)
  {
    if s != [] && InClass(s[0], k) then [s[0]] + TakeRun(s[1..], k) else []
  }

  /** `s.match(/[A-Z]+/i)` or `s.match(/\d+/)`: the leftmost maximal run of the class. */
  function FirstRun(s: string, k: CharClass): Option<string>
  {
    if s == [] then None
    else if InClass(s[0], k) then Some(TakeRun(s, k))
    else FirstRun(s[1..], k)
  }

  /** FirstRun finds nothing exactly when no character is in the class, and what it
      finds is a non-empty run of the class. */
  lemma {:induction false} FirstRunIs(s: string, k: CharClass)
    ensures FirstRun(s, k).None? <==> forall i :: 0 <= i < |s| ==> !InClass(s[i], k)
    ensures FirstRun(s, k).Some? ==>
      |FirstRun(s, k).value| > 0 && forall i :: 0 <= i < |FirstRun(s, k).value| ==> InClass(FirstRun(s, k).value[i], k)
  {
    if s != [] && !InClass(s[0], k) {
      FirstRunIs(s[1..], k);
      assert forall i :: 1 <= i < |s| ==> s[i] == s[1..][i - 1];
    }
  }

  predicate OccursAt(s: string, t: string, j: int)
  {
    0 <= j && j + |t| <= |s| && s[j..j + |t|] == t
  }

  /** `s.indexOf(t)`: the first position at which `t` occurs in `s`. */
  function IndexOf(s: string, t: string): (r: Option<nat>)
    ensures r.Some? ==> OccursAt(s, t, r.value)
    ensures r.Some? ==> forall j :: 0 <= j < r.value ==> !OccursAt(s, t, j)
    ensures r.None? ==> forall j :: !OccursAt(s, t, j)
  {
    if t <= s then Some(0)
    else if s == [] then None
    else
      match IndexOf(s[1..], t)
      case Some(i) =>
        assert forall j :: 1 <= j ==> (OccursAt(s, t, j) <==> OccursAt(s[1..], t, j - 1));
        Some(i + 1)
      case None =>
        assert forall j :: 1 <= j ==> (OccursAt(s, t, j) <==> OccursAt(s[1..], t, j - 1));
        None
  }

  /** `s.includes(t)`. */
  predicate Contains(s: string, t: string)
  {
    IndexOf(s, t).Some?
  }

  /** A text lacking one of the characters of `t` does not contain `t`. */
  lemma AbsentChar(s: string, t: string, k: nat)
    requires k < |t| && t[k] !in s
    ensures !Contains(s, t)
  {
    forall j | 0 <= j && j + |t| <= |s|
      ensures !OccursAt(s, t, j)
    {
      assert s[j..j + |t|][k] == s[j + k];
    }
  }

  /** `s.replace(t, u)` with a string pattern: only the first occurrence is replaced. */
  function ReplaceFirst(s: string, t: string, u: string): (r: string)
  {
    match IndexOf(s, t)
    case None => s
    case Some(i) => s[..i] + u + s[i + |t|..]
  }

  /** `s.split(sep)` for a one-character separator. */
  function Split(s: string, sep: char): (parts: seq<string>)
    ensures |parts| > 0
    ensures forall i :: 0 <= i < |parts| ==> sep !in parts[i]
  {
    if s == [] then [[]]
    else
      var rest := Split(s[1..], sep);
      if s[0] == sep then [[]] + rest
      else [[s[0]] + rest[0]] + rest[1..]
  }

  /** `parts.join("")`. */
  function Join(parts: seq<string>): string
  {
    if parts == [] then [] else parts[0] + Join(parts[1..])
  }

  /** `s` with every occurrence of `c` deleted. */
  function Without(s: string, c: char): (r: string)
  {
    if s == [] then [] else (if s[0] == c then [] else [s[0]]) + Without(s[1..], c)
  }

  /** A run of class `k` followed by a character outside it is exactly what TakeRun takes. */
  lemma {:induction false} TakeRunOfConcat(p: string, q: string, k: CharClass)
    requires forall i :: 0 <= i < |p| ==> InClass(p[i], k)
    requires q == [] || !InClass(q[0], k)
    ensures TakeRun(p + q, k) == p
  {
    if p != [] {
      assert (p + q)[1..] == p[1..] + q;
      TakeRunOfConcat(p[1..], q, k);
    }
  }

  /** Characters outside class `k` are skipped by FirstRun. */
  lemma {:induction false} FirstRunSkips(p: string, q: string, k: CharClass)
    requires forall i :: 0 <= i < |p| ==> !InClass(p[i], k)
    ensures FirstRun(p + q, k) == FirstRun(q, k)
  {
    if p != [] {
      assert (p + q)[0] == p[0];
      assert (p + q)[1..] == p[1..] + q;
      FirstRunSkips(p[1..], q, k);
    } else {
      assert p + q == q;
    }
  }

  /** A run of class `k` that ends inside `p` is not extended by what follows `p`. */
  lemma {:induction false} TakeRunStops(p: string, q: string, k: CharClass)
    requires |p| > 0 && !InClass(p[|p| - 1], k)
    ensures TakeRun(p + q, k) == TakeRun(p, k)
    ensures |TakeRun(p, k)| < |p|
  {
    assert (p + q)[0] == p[0];
    if |p| > 1 && InClass(p[0], k) {
      assert (p + q)[1..] == p[1..] + q;
      TakeRunStops(p[1..], q, k);
    }
  }

  /** The first occurrence of `t` in p + t + q is the one right after `p` when no position
      of `p` starts with the first two characters of `t`. */
  lemma ReplaceFirstPast(p: string, t: string, q: string, u: string)
    requires |t| >= 2
    requires forall j {:trigger p[j]} :: 0 <= j < |p| ==> p[j] != t[0] || (j + 1 < |p| && p[j + 1] != t[1])
    ensures ReplaceFirst(p + t + q, t, u) == p + u + q
  {
    var s := p + t + q;
    assert s[|p|..|p| + |t|] == t;
    assert OccursAt(s, t, |p|);
    forall j | 0 <= j < |p| ensures !OccursAt(s, t, j) {
      assert s[j] == p[j];
      assert j + 1 < |p| ==> s[j + 1] == p[j + 1];
      assert j + 1 == |p| ==> s[j + 1] == t[0];
    }
    assert s[..|p|] == p;
    assert s[|p| + |t|..] == q;
  }
}
