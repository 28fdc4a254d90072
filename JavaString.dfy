/**
 * The behaviour of the few java.lang library calls the service relies on:
 * `String.indexOf`/`contains`, `String.split` with a literal pattern and the
 * default limit 0, `Collectors.joining`, `String.trim` and `Long.toString`.
 * Java strings are modelled as sequences of chars.
 */
module JavaString {
  import opened Wrappers

  /** `d` occurs in `s` starting at index `i`. */
  predicate OccursAt(s: string, d: string, i: int) {
    0 <= i && i + |d| <= |s| && s[i..i + |d|] == d
  }

  /** The first occurrence of `d` in `s` at or after index `from` (Java's `indexOf(d, from)`). */
  function IndexOfFrom(s: string, d: string, from: nat): (r: Option<nat>)
    decreases |s| - from
    ensures r.Some? ==> from <= r.value && OccursAt(s, d, r.value)
    ensures forall j :: from <= j && (r.None? || j < r.value) ==> !OccursAt(s, d, j)
  {
    if from + |d| > |s| then None
    else if s[from..from + |d|] == d then Some(from)
    else IndexOfFrom(s, d, from + 1)
  }

  /** Java's `s.indexOf(d)`, with `None` for -1. */
  function IndexOf(s: string, d: string): (r: Option<nat>)
    ensures r.Some? ==> OccursAt(s, d, r.value) && forall j :: 0 <= j < r.value ==> !OccursAt(s, d, j)
    ensures r.None? ==> forall j :: !OccursAt(s, d, j)
  {
    IndexOfFrom(s, d, 0)
  }

  /** Java's `s.contains(d)`. */
  function Contains(s: string, d: string): (b: bool)
    ensures b <==> exists i :: OccursAt(s, d, i)
  {
    IndexOf(s, d).Some?
  }

  /**
   * The pieces a regular-expression split produces before trailing empty
   * pieces are removed: the text up to each leftmost, non-overlapping match
   * of the literal `d`, and the text after the last one.
   */
  function Pieces(s: string, d: string): (ps: seq<string>)
    requires |d| > 0
    decreases |s|
    ensures |ps| >= 1
  {
    match IndexOf(s, d)
    case None => [s]
    case Some(i) => [s[..i]] + Pieces(s[i + |d|..], d)
  }

  /** One step of `Pieces`: the text before the first match, then the pieces of the rest. */
  lemma PiecesStep(s: string, d: string)
    requires |d| > 0 && IndexOf(s, d).Some?
    ensures Pieces(s, d) == [s[..IndexOf(s, d).value]] + Pieces(s[IndexOf(s, d).value + |d|..], d)
  {
  }

  /** Removes the trailing empty strings, as `split` does when its limit is 0. */
  function DropTrailingEmpty(ps: seq<string>): (r: seq<string>)
    ensures r <= ps
    ensures r == [] || r[|r| - 1] != ""
    ensures forall i :: |r| <= i < |ps| ==> ps[i] == ""
  {
    if |ps| > 0 && ps[|ps| - 1] == "" then DropTrailingEmpty(ps[..|ps| - 1]) else ps
  }

  /**
   * Java's `s.split(d)` for a pattern `d` without regular-expression
   * metacharacters. With no match the result is `[s]`, even for an empty `s`;
   * otherwise a match at index 0 gives a leading empty piece and the
   * trailing empty pieces are removed, so the result may be empty.
   */
  function Split(s: string, d: string): (parts: seq<string>)
    requires |d| > 0
  {
    if IndexOf(s, d).None? then [s] else DropTrailingEmpty(Pieces(s, d))
  }

  /** `Collectors.joining(d)`: the strings of `xs` separated by `d`. */
  function Join(xs: seq<string>, d: string): string
  {
    if |xs| == 0 then ""
    else if |xs| == 1 then xs[0]
    else xs[0] + d + Join(xs[1..], d)
  }

  /** `d` written `k` times. */
  function Repeat(d: string, k: nat): string
  {
    if k == 0 then "" else d + Repeat(d, k - 1)
  }

  /** `k` empty strings. */
  function Blanks(k: nat): seq<string>
  {
    seq(k, _ => "")
  }

  /** No proper non-empty prefix of `d` is also a suffix of `d`: two matches of `d` cannot overlap. */
  predicate BorderFree(d: string)
  {
    |d| > 0 && forall k :: 0 < k < |d| ==> d[..k] != d[|d| - k..]
  }

  lemma OccursInPrefix(s: string, n: nat, d: string, j: int)
    requires n <= |s| && OccursAt(s[..n], d, j)
    ensures OccursAt(s, d, j) && j + |d| <= n
  {
    assert s[..n][j..j + |d|] == s[j..j + |d|];
  }

  /** `indexOf` finds a match that no earlier position has. */
  lemma FirstMatch(s: string, d: string, i: nat)
    requires OccursAt(s, d, i) && forall j :: 0 <= j < i ==> !OccursAt(s, d, j)
    ensures IndexOf(s, d) == Some(i)
  {
  }

  /** A match of `d` at `i` cuts `s` into the text before it, `d` and the text after it. */
  lemma CutAt(s: string, d: string, i: int)
    requires OccursAt(s, d, i)
    ensures s == s[..i] + d + s[i + |d|..]
  {
    assert s[..i] + d + s[i + |d|..] == s[..i] + s[i..i + |d|] + s[i + |d|..];
    assert s[..i] + s[i..] == s;
    assert s[i..] == s[i..i + |d|] + s[i + |d|..];
  }

  /** Text without the delimiter's first char cannot contain the delimiter. */
  lemma CharAbsent(s: string, d: string)
    requires |d| > 0 && forall i :: 0 <= i < |s| ==> s[i] != d[0]
    ensures !Contains(s, d)
  {
    forall j | 0 <= j && j + |d| <= |s|
      ensures !OccursAt(s, d, j)
    {
      assert s[j..j + |d|][0] == s[j];
    }
  }

  /** Joining one more string in front adds it and a delimiter. */
  lemma JoinCons(x: string, xs: seq<string>, d: string)
    requires |xs| >= 1
    ensures Join([x] + xs, d) == x + d + Join(xs, d)
  {
    assert ([x] + xs)[0] == x && ([x] + xs)[1..] == xs;
  }

  /** Splitting and joining again gives back the original text. */
  lemma {:induction false} JoinOfPieces(s: string, d: string)
    requires |d| > 0
    ensures Join(Pieces(s, d), d) == s
    decreases |s|
  {
    match IndexOf(s, d)
    case None =>
    case Some(i) =>
      JoinOfPieces(s[i + |d|..], d);
      PiecesStep(s, d);
      JoinCons(s[..i], Pieces(s[i + |d|..], d), d);
      CutAt(s, d, i);
  }

  /** No piece contains the delimiter. */
  lemma {:induction false} PiecesAvoidDelimiter(s: string, d: string)
    requires |d| > 0
    ensures forall p :: p in Pieces(s, d) ==> !Contains(p, d)
    decreases |s|
  {
    match IndexOf(s, d)
    case None =>
    case Some(i) =>
      var rest := s[i + |d|..];
      PiecesAvoidDelimiter(rest, d);
      forall j | OccursAt(s[..i], d, j)
        ensures OccursAt(s, d, j) && j < i
      {
        OccursInPrefix(s, i, d, j);
      }
      assert Pieces(s, d) == [s[..i]] + Pieces(rest, d);
  }

  /** With a border-free delimiter, the first match in `a + d + b` is the one right after `a`. */
  lemma FirstOccurrence(a: string, b: string, d: string)
    requires BorderFree(d) && !Contains(a, d)
    ensures IndexOf(a + d + b, d) == Some(|a|)
  {
    var s := a + d + b;
    assert s[|a|..|a| + |d|] == d;
    assert OccursAt(s, d, |a|);
    forall j | 0 <= j < |a|
      ensures !OccursAt(s, d, j)
    {
      if j + |d| <= |a| {
        assert s[j..j + |d|] == a[j..j + |d|];
        assert !OccursAt(a, d, j);
      } else {
        var k := j + |d| - |a|;
        assert 0 < k < |d|;
        assert s[|a|..j + |d|] == d[..k];
        assert s[j..j + |d|][|d| - k..] == s[|a|..j + |d|];
        assert d[..k] != d[|d| - k..];
      }
    }
  }

  /** With a border-free delimiter, splitting a join of delimiter-free strings gives them back. */
  lemma {:induction false} PiecesOfJoin(xs: seq<string>, d: string)
    requires BorderFree(d) && |xs| >= 1
    requires forall i :: 0 <= i < |xs| ==> !Contains(xs[i], d)
    ensures Pieces(Join(xs, d), d) == xs
    decreases |xs|
  {
    if |xs| > 1 {
      var rest := Join(xs[1..], d);
      var s := xs[0] + d + rest;
      assert Join(xs, d) == s by {
        assert xs == [xs[0]] + xs[1..];
        JoinCons(xs[0], xs[1..], d);
      }
      FirstOccurrence(xs[0], rest, d);
      PiecesStep(s, d);
      assert s[..|xs[0]|] == xs[0];
      assert s[|xs[0]| + |d|..] == rest;
      PiecesOfJoin(xs[1..], d);
      assert xs == [xs[0]] + xs[1..];
    }
  }

  lemma {:induction false} JoinWithBlanks(x: string, d: string, k: nat)
    ensures Join([x] + Blanks(k), d) == x + Repeat(d, k)
    decreases k
  {
    if k > 0 {
      JoinWithBlanks("", d, k - 1);
      assert ([x] + Blanks(k))[1..] == Blanks(k) == [""] + Blanks(k - 1);
    } else {
      assert [x] + Blanks(0) == [x];
    }
  }

  lemma {:induction false} DropBlanks(ys: seq<string>, k: nat)
    requires ys == [] || ys[|ys| - 1] != ""
    ensures DropTrailingEmpty(ys + Blanks(k)) == ys
  {
    if k > 0 {
      DropBlanks(ys, k - 1);
      assert (ys + Blanks(k))[..|ys| + k - 1] == ys + Blanks(k - 1);
    } else {
      assert ys + Blanks(0) == ys;
    }
  }

  /** What `split` removed are empty strings. */
  lemma DropTrailingEmptyShape(ps: seq<string>)
    ensures ps == DropTrailingEmpty(ps) + Blanks(|ps| - |DropTrailingEmpty(ps)|)
  {
    var r := DropTrailingEmpty(ps);
    assert forall i :: 0 <= i < |ps| ==> ps[i] == (r + Blanks(|ps| - |r|))[i];
  }

  /**
   * `Split` is a left inverse of `Join` for a border-free delimiter: the
   * pieces must be free of the delimiter and, when there are several, the
   * last one must be non-empty (it would be dropped otherwise).
   */
  lemma SplitOfJoin(xs: seq<string>, d: string)
    requires BorderFree(d) && |xs| >= 1
    requires forall i :: 0 <= i < |xs| ==> !Contains(xs[i], d)
    requires |xs| >= 2 ==> xs[|xs| - 1] != ""
    ensures Split(Join(xs, d), d) == xs
  {
    if |xs| >= 2 {
      FirstOccurrence(xs[0], Join(xs[1..], d), d);
      PiecesOfJoin(xs, d);
      DropBlanks(xs, 0);
      assert xs + Blanks(0) == xs;
    }
  }

  lemma {:induction false} PiecesOfRepeat(d: string, k: nat)
    requires |d| > 0
    ensures Pieces(Repeat(d, k), d) == Blanks(k + 1)
  {
    if k == 0 {
      assert !OccursAt("", d, 0);
      assert Blanks(1) == [""];
    } else {
      var s := Repeat(d, k);
      assert s == d + Repeat(d, k - 1);
      assert s[0..|d|] == d;
      assert IndexOf(s, d) == Some(0);
      assert s[|d|..] == Repeat(d, k - 1);
      PiecesOfRepeat(d, k - 1);
      assert Blanks(k + 1) == [""] + Blanks(k);
    }
  }

  /** Pieces that are all dropped are all empty. */
  lemma AllDropped(ps: seq<string>)
    requires DropTrailingEmpty(ps) == []
    ensures ps == Blanks(|ps|)
  {
    DropTrailingEmptyShape(ps);
    assert [] + Blanks(|ps|) == Blanks(|ps|);
  }

  lemma BlanksCons(n: nat)
    ensures Blanks(n + 1) == [""] + Blanks(n)
  {
  }

  /** A split with no pieces came from a text that is only repetitions of the pattern. */
  lemma EmptySplitIsRepeat(s: string, d: string)
    requires |d| > 0 && Split(s, d) == []
    ensures exists k :: 1 <= k && s == Repeat(d, k)
  {
    var ps := Pieces(s, d);
    var n: nat := |ps| - 1;
    assert 1 <= n && ps == [""] + Blanks(n) by {
      PiecesStep(s, d);
      AllDropped(ps);
      BlanksCons(n);
    }
    assert s == Repeat(d, n) by {
      JoinOfPieces(s, d);
      JoinWithBlanks("", d, n);
    }
  }

  /** Splitting a repetition of the pattern gives no pieces. */
  lemma RepeatSplitsEmpty(d: string, k: nat)
    requires |d| > 0 && 1 <= k
    ensures Split(Repeat(d, k), d) == []
  {
    var s := Repeat(d, k);
    PiecesOfRepeat(d, k);
    assert OccursAt(s, d, 0) by {
      assert s == d + Repeat(d, k - 1);
      assert s[0..|d|] == d;
    }
    DropBlanks([], k + 1);
    assert [] + Blanks(k + 1) == Blanks(k + 1);
  }

  /** `split` returns no pieces exactly when the text is the delimiter repeated one or more times. */
  lemma SplitEmptyIff(s: string, d: string)
    requires |d| > 0
    ensures Split(s, d) == [] <==> exists k :: 1 <= k && s == Repeat(d, k)
  {
    if Split(s, d) == [] {
      EmptySplitIsRepeat(s, d);
    }
    if exists k :: 1 <= k && s == Repeat(d, k) {
      var k :| 1 <= k && s == Repeat(d, k);
      RepeatSplitsEmpty(d, k);
    }
  }

  /** The first element `split` returns is the text before the first match. */
  lemma SplitHead(s: string, d: string)
    requires |d| > 0 && Split(s, d) != []
    ensures IndexOf(s, d).None? ==> Split(s, d)[0] == s
    ensures IndexOf(s, d).Some? ==> Split(s, d)[0] == s[..IndexOf(s, d).value]
  {
  }

  /** Java's `String.trim()` removes leading chars at or below U+0020 ... */
  function TrimStart(s: string): (r: string)
    decreases |s|
    ensures |r| <= |s| && r == s[|s| - |r|..]
    ensures r == "" || r[0] > ' '
  {
    if |s| > 0 && s[0] <= ' ' then
      var r := TrimStart(s[1..]);
      assert s[1..][|s| - 1 - |r|..] == s[|s| - |r|..];
      r
    else s
  }

  /** ... and trailing ones. */
  function TrimEnd(s: string): (r: string)
    decreases |s|
    ensures |r| <= |s| && r == s[..|r|]
    ensures r == "" || r[|r| - 1] > ' '
  {
    if |s| > 0 && s[|s| - 1] <= ' ' then TrimEnd(s[..|s| - 1]) else s
  }

  /** Java's `s.trim()`. */
  function Trim(s: string): string
  {
    TrimEnd(TrimStart(s))
  }

  /** Every char is at or below U+0020, the chars `trim` removes. */
  predicate IsBlank(s: string)
  {
    forall i :: 0 <= i < |s| ==> s[i] <= ' '
  }

  lemma {:induction false} TrimStartEmptyIff(s: string)
    ensures TrimStart(s) == "" <==> IsBlank(s)
    decreases |s|
  {
    if |s| > 0 && s[0] <= ' ' {
      TrimStartEmptyIff(s[1..]);
      assert forall i :: 1 <= i < |s| ==> s[i] == s[1..][i - 1];
    }
  }

  lemma {:induction false} TrimEndEmptyIff(s: string)
    ensures TrimEnd(s) == "" <==> IsBlank(s)
    decreases |s|
  {
    if |s| > 0 && s[|s| - 1] <= ' ' {
      TrimEndEmptyIff(s[..|s| - 1]);
      assert forall i :: 0 <= i < |s| - 1 ==> s[i] == s[..|s| - 1][i];
    }
  }

  /** `s.trim().isEmpty()` holds exactly when every char of `s` is at or below U+0020. */
  lemma TrimEmptyIffBlank(s: string)
    ensures Trim(s) == "" <==> IsBlank(s)
  {
    TrimStartEmptyIff(s);
    var t := TrimStart(s);
    TrimEndEmptyIff(t);
    if t != "" {
      assert !IsBlank(t) by { assert t[0] > ' '; }
    }
  }

  /** The decimal digit for `n < 10`. */
  function DigitChar(n: nat): (c: char)
    requires n < 10
    ensures '0' <= c <= '9' && (c as int) - ('0' as int) == n
  {
    (('0' as int) + n) as char
  }

  /** The decimal digits of `n`, without leading zeros. */
  function Digits(n: nat): (r: string)
    ensures |r| >= 1 && forall i :: 0 <= i < |r| ==> '0' <= r[i] <= '9'
    ensures r[0] == '0' ==> n == 0
  {
    if n < 10 then [DigitChar(n)] else Digits(n / 10) + [DigitChar(n % 10)]
  }

  /** Java's `Long.toString(n)`, which is also what `"..." + n` writes. */
  function LongToString(n: int): (r: string)
    ensures |r| >= 1 && forall i :: 0 <= i < |r| ==> r[i] == '-' || '0' <= r[i] <= '9'
  {
    if n < 0 then "-" + Digits(-n) else Digits(n)
  }

  /** The value of a string of decimal digits: the reading `Long.parseLong` gives it. */
  function DigitsValue(s: string): int
  {
    if s == "" then 0 else DigitsValue(s[..|s| - 1]) * 10 + ((s[|s| - 1] as int) - ('0' as int))
  }

  lemma {:induction false} DigitsValueOfDigits(n: nat)
    ensures DigitsValue(Digits(n)) == n
  {
    if n >= 10 {
      DigitsValueOfDigits(n / 10);
      var s := Digits(n / 10) + [DigitChar(n % 10)];
      assert s[..|s| - 1] == Digits(n / 10);
    }
  }

  lemma LongToStringSign(n: int)
    ensures LongToString(n)[0] == '-' <==> n < 0
    ensures n < 0 ==> LongToString(n)[1..] == Digits(-n)
  {
    if n >= 0 {
      assert '0' <= Digits(n)[0] <= '9';
    }
  }

  lemma DigitsInjective(a: nat, b: nat)
    ensures Digits(a) == Digits(b) ==> a == b
  {
    DigitsValueOfDigits(a);
    DigitsValueOfDigits(b);
  }

  /** Distinct ids give distinct decimal strings: the text of an event identifies the id. */
  lemma LongToStringInjective(a: int, b: int)
    ensures LongToString(a) == LongToString(b) ==> a == b
  {
    if LongToString(a) == LongToString(b) {
      LongToStringSign(a);
      LongToStringSign(b);
      if a < 0 {
        DigitsInjective(-a, -b);
      } else {
        DigitsInjective(a, b);
      }
    }
  }
}
