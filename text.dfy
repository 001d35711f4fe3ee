/** String helpers shared by the site's components: the JavaScript string
    operations they use (`includes`, `indexOf`, `toLowerCase`, `trim`, the
    `.` and `\s` classes of regular expressions), stated on `seq<char>`. */
module Text {

  datatype Option<T> = None | Some(value: T)

  /** The characters that `.` in an ECMAScript regular expression does not match. */
  predicate IsLineTerminator(c: char) {
    c == '\n' || c == '\r' || c == '\U{2028}' || c == '\U{2029}'
  }

  /** ECMAScript white space and line terminators: the class `\s`, and what `trim` removes. */
  predicate IsSpace(c: char) {
    || IsLineTerminator(c)
    || c == ' ' || c == '\t' || c == '\U{B}' || c == '\U{C}'
    || c == '\U{A0}' || c == '\U{FEFF}' || c == '\U{1680}'
    || ('\U{2000}' <= c <= '\U{200A}')
    || c == '\U{202F}' || c == '\U{205F}' || c == '\U{3000}'
  }

  /** `s.trim()` is empty. */
  predicate IsBlank(s: string) {
    forall i :: 0 <= i < |s| ==> IsSpace(s[i])
  }

  /** ASCII lower-casing of one character. */
  function LowerChar(c: char): (r: char)
    ensures 'A' <= c <= 'Z' ==> r as int == c as int + 32
    ensures !('A' <= c <= 'Z') ==> r == c
    ensures !('A' <= r <= 'Z')
  {
    if 'A' <= c <= 'Z' then (c as int + 32) as char else c
  }

  /** `s.toLowerCase()` on the ASCII range. */
  function Lower(s: string): (r: string)
    ensures |r| == |s|
  {
    if s == [] then [] else [LowerChar(s[0])] + Lower(s[1..])
  }

  /** Each character is lower-cased in place. */
  lemma {:induction false} LowerChars(s: string)
    ensures forall i :: 0 <= i < |s| ==> Lower(s)[i] == LowerChar(s[i])
  {
    if s != [] {
      LowerChars(s[1..]);
      assert forall i :: 1 <= i < |s| ==> Lower(s)[i] == Lower(s[1..])[i - 1];
    }
  }

  /** Text with no upper-case ASCII letter is its own lower-case form. */
  lemma {:induction false} LowerNoUpper(s: string)
    requires forall i :: 0 <= i < |s| ==> !('A' <= s[i] <= 'Z')
    ensures Lower(s) == s
  {
    if s != [] {
      assert forall i :: 0 <= i < |s[1..]| ==> s[1..][i] == s[i + 1];
      LowerNoUpper(s[1..]);
    }
  }

  lemma {:induction false} LowerAppend(a: string, b: string)
    ensures Lower(a + b) == Lower(a) + Lower(b)
  {
    assert |Lower(a + b)| == |Lower(a) + Lower(b)|;
    LowerChars(a + b);
    LowerChars(a);
    LowerChars(b);
    forall i | 0 <= i < |a + b|
      ensures Lower(a + b)[i] == (Lower(a) + Lower(b))[i]
    {
      if i < |a| { assert (a + b)[i] == a[i]; } else { assert (a + b)[i] == b[i - |a|]; }
    }
  }

  /** `p` occurs in `s` at position `i`. */
  predicate OccursAt(s: string, i: nat, p: string) {
    i + |p| <= |s| && s[i..i + |p|] == p
  }

  /** `s.startsWith(p)` */
  predicate StartsWith(s: string, p: string) {
    OccursAt(s, 0, p)
  }

  /** The first position at or after `from` where `p` occurs in `s`. */
  function IndexOfFrom(s: string, p: string, from: nat): (r: Option<nat>)
    ensures r.Some? ==> from <= r.value && r.value + |p| <= |s| && OccursAt(s, r.value, p)
    ensures r.Some? ==> forall j :: from <= j < r.value ==> !OccursAt(s, j, p)
    ensures r.None? ==> forall j :: from <= j ==> !OccursAt(s, j, p)
    decreases |s| + 1 - from
  {
    if from + |p| > |s| then None
    else if OccursAt(s, from, p) then Some(from)
    else IndexOfFrom(s, p, from + 1)
  }

  /** `s.indexOf(p)`, as an option. */
  function IndexOf(s: string, p: string): Option<nat> {
    IndexOfFrom(s, p, 0)
  }

  /** `s.includes(p)` */
  predicate Contains(s: string, p: string) {
    IndexOf(s, p).Some?
  }

  /** `includes` holds exactly when the needle occurs somewhere. */
  lemma ContainsIff(s: string, p: string)
    ensures Contains(s, p) <==> exists i: nat :: OccursAt(s, i, p)
  {
    if Contains(s, p) {
      var i := IndexOf(s, p).value;
      assert OccursAt(s, i, p);
      assert exists k: nat :: OccursAt(s, k, p);
    } else {
      assert forall k: nat :: !OccursAt(s, k, p);
    }
  }

  /** A needle that occurs inside `b` occurs inside `a + b + c`. */
  lemma ContainsInside(a: string, b: string, c: string, p: string)
    requires Contains(b, p)
    ensures Contains(a + b + c, p)
  {
    var i := IndexOf(b, p).value;
    assert (a + b + c)[|a| + i..|a| + i + |p|] == b[i..i + |p|];
    assert OccursAt(a + b + c, |a| + i, p);
  }

  lemma {:induction false} LowerIdempotent(s: string)
    ensures Lower(Lower(s)) == Lower(s)
  {
    if s != [] {
      LowerIdempotent(s[1..]);
    }
  }

  /** A text that holds `kw`, in any case, holds its lower-case form once lower-cased. */
  lemma LowerContainsInside(a: string, kw: string, b: string, k: string)
    requires Lower(kw) == k
    ensures Contains(Lower(a + kw + b), k)
  {
    LowerAppend(a + kw, b);
    LowerAppend(a, kw);
    assert OccursAt(k, 0, k);
    ContainsInside(Lower(a), Lower(kw), Lower(b), k);
  }

  /** The text before the first `c` (or all of `s`): `s.split(c)[0]`. */
  function Before(s: string, c: char): (r: string)
    ensures |r| <= |s| && r == s[..|r|]
    ensures c !in r
    ensures |r| < |s| ==> s[|r|] == c
  {
    if s == [] || s[0] == c then [] else [s[0]] + Before(s[1..], c)
  }

  /** `s.split(sep)[1]` when `sep` occurs in `s`: the text between its first
      and its second occurrence, or up to the end. */
  function SecondPiece(s: string, sep: string): (r: string)
    requires |sep| > 0
    ensures exists o: nat :: OccursAt(s, o, r)
  {
    match IndexOf(s, sep)
    case None =>
      assert OccursAt(s, 0, "");
      ""
    case Some(i) =>
      var rest := s[i + |sep|..];
      match IndexOf(rest, sep)
      case None =>
        assert s[i + |sep|..i + |sep| + |rest|] == rest;
        assert OccursAt(s, i + |sep|, rest);
        rest
      case Some(j) =>
        assert s[i + |sep|..i + |sep| + j] == rest[..j];
        assert OccursAt(s, i + |sep|, rest[..j]);
        rest[..j]
  }

  /** An occurrence inside an occurrence is an occurrence. */
  lemma OccursWithin(s: string, o: nat, t: string, k: nat, p: string)
    requires OccursAt(s, o, t) && OccursAt(t, k, p)
    ensures OccursAt(s, o + k, p)
  {
    var u := s[o..o + |t|];
    forall j | 0 <= j < |p| ensures s[o + k..o + k + |p|][j] == p[j] {
      assert s[o + k..o + k + |p|][j] == u[k + j];
      assert t[k..k + |p|][j] == t[k + j];
    }
  }

  /** The second part of a concatenation occurs where the first ends. */
  lemma OccursAfter(a: string, b: string)
    ensures OccursAt(a + b, |a|, b)
  {
    assert (a + b)[|a|..|a| + |b|] == b;
  }

  /** The end of a lazy `.*?` followed by `close`, scanning from `j`: the first
      position at or after `j` where `close` occurs, provided no line terminator
      lies before it. */
  function LazyCloseFrom(s: string, j: nat, close: string): (r: Option<nat>)
    requires |close| > 0
    ensures r.Some? ==> j <= r.value && r.value + |close| <= |s| && OccursAt(s, r.value, close)
    ensures r.Some? ==> forall k :: j <= k < r.value ==> !IsLineTerminator(s[k]) && !OccursAt(s, k, close)
    decreases |s| - j
  {
    if j >= |s| then None
    else if OccursAt(s, j, close) then
      Some(j)
    else if IsLineTerminator(s[j]) then None
    else LazyCloseFrom(s, j + 1, close)
  }

  /** A text between two occurrences of a marker, markers included. */
  lemma Enclosed(s: string, q: nat, j: nat, mark: string)
    requires OccursAt(s, q, mark) && OccursAt(s, j, mark) && q + |mark| <= j
    ensures s[q..j + |mark|] == mark + s[q + |mark|..j] + mark
  {
    assert s[q..j + |mark|] == s[q..q + |mark|] + s[q + |mark|..j] + s[j..j + |mark|];
  }

  /** The lazy scan stops at the first `close` when nothing before it stops it earlier. */
  lemma {:induction false} LazyCloseAt(s: string, j: nat, close: string, e: nat)
    requires |close| > 0 && j <= e && OccursAt(s, e, close)
    requires forall k :: j <= k < e ==> !IsLineTerminator(s[k]) && !OccursAt(s, k, close)
    ensures LazyCloseFrom(s, j, close) == Some(e)
    decreases e - j
  {
    if j < e {
      LazyCloseAt(s, j + 1, close, e);
    }
  }

  /** A suffix of `s` cut at two later points. */
  lemma SliceSplit(s: string, p: nat, q: nat, e: nat)
    requires p <= q <= e <= |s|
    ensures s[p..] == s[p..q] + s[q..e] + s[e..]
  {
  }

  /** `s.endsWith(p)` */
  predicate EndsWith(s: string, p: string) {
    |p| <= |s| && OccursAt(s, |s| - |p|, p)
  }

  /** The pieces of a list of strings joined together. */
  function Concat(ps: seq<string>): string {
    if ps == [] then [] else ps[0] + Concat(ps[1..])
  }

  lemma ConcatCons(x: string, xs: seq<string>)
    ensures Concat([x] + xs) == x + Concat(xs)
  {
    assert ([x] + xs)[1..] == xs;
  }

  lemma {:induction false} ConcatAppend(a: seq<string>, b: seq<string>)
    ensures Concat(a + b) == Concat(a) + Concat(b)
  {
    if a != [] {
      assert (a + b)[0] == a[0];
      assert (a + b)[1..] == a[1..] + b;
      ConcatAppend(a[1..], b);
      calc {
        Concat(a + b);
        a[0] + Concat(a[1..] + b);
        a[0] + (Concat(a[1..]) + Concat(b));
        (a[0] + Concat(a[1..])) + Concat(b);
      }
    } else {
      assert a + b == b;
    }
  }

  /** `ps.filter(Boolean)` on strings: the empty ones are dropped. */
  function NonEmpty(ps: seq<string>): (r: seq<string>)
    ensures forall i :: 0 <= i < |r| ==> r[i] != []
    ensures Concat(r) == Concat(ps)
  {
    if ps == [] then []
    else if ps[0] == [] then NonEmpty(ps[1..])
    else [ps[0]] + NonEmpty(ps[1..])
  }

  lemma NonEmptyCons(x: string, xs: seq<string>)
    ensures NonEmpty([x] + xs) == (if x == [] then [] else [x]) + NonEmpty(xs)
  {
    assert ([x] + xs)[1..] == xs;
  }

  /** Decimal digits of a natural number, as `String(n)` gives them. */
  function NatToString(n: nat): (r: string)
    ensures |r| > 0
    ensures forall i :: 0 <= i < |r| ==> '0' <= r[i] <= '9'
    decreases n
  {
    if n < 10 then [(n + '0' as int) as char]
    else NatToString(n / 10) + [(n % 10 + '0' as int) as char]
  }

  /** The number a string of decimal digits denotes. */
  function DigitsValue(s: string): nat
    requires forall i :: 0 <= i < |s| ==> '0' <= s[i] <= '9'
  {
    if s == [] then 0 else DigitsValue(s[..|s| - 1]) * 10 + (s[|s| - 1] as int - '0' as int)
  }

  /** Reading the digits back gives the number. */
  lemma {:induction false} NatToStringValue(n: nat)
    ensures DigitsValue(NatToString(n)) == n
    decreases n
  {
    if n >= 10 {
      var s := NatToString(n / 10);
      var d := [(n % 10 + '0' as int) as char];
      NatToStringValue(n / 10);
      assert (s + d)[..|s + d| - 1] == s;
    }
  }

  /** Different numbers have different decimal strings. */
  lemma NatToStringInjective(m: nat, n: nat)
    requires NatToString(m) == NatToString(n)
    ensures m == n
  {
    NatToStringValue(m);
    NatToStringValue(n);
  }

  lemma MulBound(k: int, n: int)
    requires 0 < n && -n < k * n < n
    ensures k == 0
  {
    assert k >= 1 ==> k * n >= n;
    assert k <= -1 ==> k * n <= -n;
  }

  /** The remainder is the one `r` in `[0, n)` with `a == q * n + r`. */
  lemma ModUnique(a: int, n: int, q: int, r: int)
    requires 0 < n && 0 <= r < n && a == q * n + r
    ensures a % n == r
  {
    var d := a / n - q;
    assert d * n == r - a % n;
    MulBound(d, n);
  }

  /** One step past the remainder is the remainder one step on. */
  lemma ModNext(a: int, n: int)
    requires 0 <= a && 0 < n
    ensures (a % n + 1) % n == (a + 1) % n
  {
    var q, j := a / n, a % n;
    assert a + 1 == q * n + (j + 1);
    if j + 1 < n {
      ModUnique(j + 1, n, 0, j + 1);
      ModUnique(a + 1, n, q, j + 1);
    } else {
      ModUnique(j + 1, n, 1, 0);
      ModUnique(a + 1, n, q + 1, 0);
    }
  }

  /** `a % n` as JavaScript computes it on integers: the sign follows `a`. */
  function JsRem(a: int, n: int): (r: int)
    requires n > 0
    ensures a >= 0 ==> 0 <= r < n && r == a % n
    ensures a < 0 ==> -n < r <= 0
  {
    if a >= 0 then a % n else -((-a) % n)
  }
}
