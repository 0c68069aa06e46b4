/**
 * Character-level helpers shared by the services: Python's notion of whitespace
 * (`str.isspace`, which is also what `\s` matches in a `str` regular expression),
 * `str.strip()`, `sep.join(...)` and `str(n)` for a non-negative integer.
 */
module Text {

  /** Python's whitespace characters. */
  predicate IsSpace(c: char) {
    ('\t' <= c <= '\r') || ('\U{1c}' <= c <= '\U{1f}') || c == ' ' ||
    c == '\U{85}' || c == '\U{a0}' || c == '\U{1680}' ||
    ('\U{2000}' <= c <= '\U{200a}') || c == '\U{2028}' || c == '\U{2029}' ||
    c == '\U{202f}' || c == '\U{205f}' || c == '\U{3000}'
  }

  /** `not s.strip()`: the string is empty or all whitespace. */
  predicate IsBlank(s: string) {
    forall i :: 0 <= i < |s| ==> IsSpace(s[i])
  }

  /** `c` itself unless it is whitespace. */
  function Keep(c: char): (r: string)
    ensures |r| <= 1
  {
    if IsSpace(c) then [] else [c]
  }

  /** The non-whitespace characters of `s`, in order. */
  function NonSpace(s: string): (r: string)
    ensures |r| <= |s|
  {
    if s == [] then [] else Keep(s[0]) + NonSpace(s[1..])
  }

  lemma {:induction false} NonSpaceAppend(a: string, b: string)
    ensures NonSpace(a + b) == NonSpace(a) + NonSpace(b)
  {
    if a == [] {
      assert a + b == b;
    } else {
      var ab := a + b;
      assert ab[0] == a[0] && ab[1..] == a[1..] + b;
      NonSpaceAppend(a[1..], b);
      calc {
        NonSpace(ab);
        Keep(a[0]) + NonSpace(a[1..] + b);
        Keep(a[0]) + (NonSpace(a[1..]) + NonSpace(b));
        (Keep(a[0]) + NonSpace(a[1..])) + NonSpace(b);
      }
    }
  }

  /** A string loses nothing but whitespace exactly when it is blank. */
  lemma {:induction false} NonSpaceEmptyIffBlank(s: string)
    ensures NonSpace(s) == [] <==> IsBlank(s)
  {
    if s != [] {
      NonSpaceEmptyIffBlank(s[1..]);
      if IsBlank(s) {
        assert IsBlank(s[1..]) by {
          forall i | 0 <= i < |s[1..]| ensures IsSpace(s[1..][i]) { assert s[1..][i] == s[i + 1]; }
        }
      }
      if !IsSpace(s[0]) {
        assert NonSpace(s)[0] == s[0];
      } else if IsBlank(s[1..]) {
        forall i | 0 <= i < |s| ensures IsSpace(s[i]) {
          if i > 0 { assert s[i] == s[1..][i - 1]; }
        }
      }
    }
  }

  /** The number of whitespace characters `s` starts with. */
  function LeadingSpaces(s: string): (k: nat)
    ensures k <= |s| && IsBlank(s[..k])
    ensures k == |s| || !IsSpace(s[k])
  {
    if s != [] && IsSpace(s[0]) then
      var k := LeadingSpaces(s[1..]);
      assert s[..k + 1] == [s[0]] + s[1..][..k];
      k + 1
    else 0
  }

  /** The number of characters of `s` that remain once its trailing whitespace is cut. */
  function TrailingStart(s: string): (k: nat)
    ensures k <= |s| && IsBlank(s[k..])
    ensures k == 0 || !IsSpace(s[k - 1])
  {
    if s != [] && IsSpace(s[|s| - 1]) then
      var k := TrailingStart(s[..|s| - 1]);
      assert s[k..] == s[..|s| - 1][k..] + [s[|s| - 1]];
      k
    else |s|
  }

  /** `s.strip()`: `s` without its leading and trailing whitespace. */
  function Strip(s: string): (r: string)
    ensures r == [] || (!IsSpace(r[0]) && !IsSpace(r[|r| - 1]))
    ensures LeadingSpaces(s) + |r| <= |s| && r == s[LeadingSpaces(s)..LeadingSpaces(s) + |r|]
    ensures NonSpace(r) == NonSpace(s)
    ensures r == [] <==> IsBlank(s)
  {
    var i := LeadingSpaces(s);
    var k := TrailingStart(s[i..]);
    var j := i + k;
    assert s[j..] == s[i..][k..];
    assert j > i ==> s[j - 1] == s[i..][k - 1];
    StripEnds(s, i, j);
    s[i..j]
  }

  /** The slice between the leading and the trailing whitespace has the properties of `Strip`. */
  lemma StripEnds(s: string, i: nat, j: nat)
    requires i <= j <= |s| && IsBlank(s[..i]) && IsBlank(s[j..])
    requires i == |s| || !IsSpace(s[i])
    requires j == i || !IsSpace(s[j - 1])
    ensures var r := s[i..j];
      && (r == [] || (!IsSpace(r[0]) && !IsSpace(r[|r| - 1])))
      && NonSpace(r) == NonSpace(s)
      && (r == [] <==> IsBlank(s))
  {
    var r := s[i..j];
    CutBlankEnds(s, i, j);
    NonSpaceEmptyIffBlank(r);
    if r != [] {
      assert r[0] == s[i] && r[|r| - 1] == s[j - 1];
    }
  }

  /** Blank padding around a text with no whitespace at its ends is exactly what `strip()` removes. */
  lemma StripPadded(w: string, x: string, w': string)
    requires IsBlank(w) && IsBlank(w')
    requires x != [] && !IsSpace(x[0]) && !IsSpace(x[|x| - 1])
    ensures Strip(w + x + w') == x
  {
    var s := w + x + w';
    LeadingSpacesOf(w, x + w');
    assert s == w + (x + w') && s[|w|..] == x + w';
    TrailingStartOf(x, w');
    assert s[|w|..|w| + |x|] == x;
  }

  /** `w + rest` starts with exactly the blank run `w` when `rest` does not start with whitespace. */
  lemma {:induction false} LeadingSpacesOf(w: string, rest: string)
    requires IsBlank(w) && (rest == [] || !IsSpace(rest[0]))
    ensures LeadingSpaces(w + rest) == |w|
  {
    if w == [] {
      assert w + rest == rest;
    } else {
      var s := w + rest;
      assert s[0] == w[0] && s[1..] == w[1..] + rest;
      assert IsBlank(w[1..]) by {
        forall i | 0 <= i < |w[1..]| ensures IsSpace(w[1..][i]) { assert w[1..][i] == w[i + 1]; }
      }
      LeadingSpacesOf(w[1..], rest);
    }
  }

  /** `x + w'` ends with exactly the blank run `w'` when `x` does not end with whitespace. */
  lemma {:induction false} TrailingStartOf(x: string, w': string)
    requires IsBlank(w') && (x == [] || !IsSpace(x[|x| - 1]))
    ensures TrailingStart(x + w') == |x|
  {
    if w' == [] {
      assert x + w' == x;
    } else {
      var s := x + w';
      var v := w'[..|w'| - 1];
      assert s[|s| - 1] == w'[|w'| - 1] && s[..|s| - 1] == x + v;
      assert IsBlank(v) by {
        forall i | 0 <= i < |v| ensures IsSpace(v[i]) { assert v[i] == w'[i]; }
      }
      TrailingStartOf(x, v);
    }
  }

  /** Cutting blank ends off a string keeps its non-whitespace characters. */
  lemma CutBlankEnds(s: string, i: nat, j: nat)
    requires i <= j <= |s| && IsBlank(s[..i]) && IsBlank(s[j..])
    ensures NonSpace(s[i..j]) == NonSpace(s)
    ensures NonSpace(s[i..j]) == [] <==> IsBlank(s)
  {
    assert s == s[..i] + s[i..j] + s[j..];
    NonSpaceAppend(s[..i] + s[i..j], s[j..]);
    NonSpaceAppend(s[..i], s[i..j]);
    NonSpaceEmptyIffBlank(s[..i]);
    NonSpaceEmptyIffBlank(s[j..]);
    NonSpaceEmptyIffBlank(s);
  }

  /** `sep.join(xs)`. */
  function Join(sep: string, xs: seq<string>): (r: string)
    ensures |xs| == 1 ==> r == xs[0]
  {
    if |xs| == 0 then ""
    else if |xs| == 1 then xs[0]
    else Join(sep, xs[..|xs| - 1]) + sep + xs[|xs| - 1]
  }

  /** `' '.join(xs)`. */
  function JoinSpace(xs: seq<string>): string {
    Join(" ", xs)
  }

  /** Joining two non-empty runs is joining each and putting one separator between them. */
  lemma {:induction false} JoinAppend(sep: string, a: seq<string>, b: seq<string>)
    requires a != [] && b != []
    ensures Join(sep, a + b) == Join(sep, a) + sep + Join(sep, b)
  {
    if |b| == 1 {
      assert (a + b)[..|a + b| - 1] == a;
    } else {
      var b' := b[..|b| - 1];
      assert (a + b)[..|a + b| - 1] == a + b';
      JoinAppend(sep, a, b');
    }
  }

  /** The ASCII digit for `d`. */
  function Digit(d: nat): (c: char)
    requires d < 10
    ensures '0' <= c <= '9'
  {
    ('0' as int + d) as char
  }

  /** `str(n)` for a non-negative integer: its decimal digits, most significant first. */
  function DecimalString(n: nat): (r: string)
    ensures |r| >= 1
    ensures forall i :: 0 <= i < |r| ==> '0' <= r[i] <= '9'
    ensures n >= 10 <==> |r| >= 2
  {
    if n < 10 then [Digit(n)] else DecimalString(n / 10) + [Digit(n % 10)]
  }

  /** Different numbers print differently. */
  lemma {:induction false} DecimalStringInjective(m: nat, n: nat)
    requires DecimalString(m) == DecimalString(n)
    ensures m == n
  {
    if m >= 10 && n >= 10 {
      var a, b := DecimalString(m), DecimalString(n);
      assert Digit(m % 10) == a[|a| - 1] == b[|b| - 1] == Digit(n % 10);
      assert DecimalString(m / 10) == a[..|a| - 1] == b[..|b| - 1] == DecimalString(n / 10);
      DecimalStringInjective(m / 10, n / 10);
    } else if m < 10 && n < 10 {
      assert Digit(m) == DecimalString(m)[0] == DecimalString(n)[0] == Digit(n);
    }
  }
}
