/**
 * The few Python string built-ins the report code leans on: slicing with
 * clamped bounds, `int(str)`, `str * n`, `str.split(sep)` and
 * `filter(None, ...)` over a list of strings.
 */
module PyStr {
  import opened Wrappers

  /** Python's `s[a:b]` for non-negative bounds: both bounds clamp to `len(s)`. */
  function Slice(s: string, a: nat, b: nat): (r: string)
    requires a <= b
    ensures |r| <= b - a
    ensures b <= |s| ==> r == s[a..b]
    ensures a <= |s| < b ==> r == s[a..]
    ensures |s| < a ==> r == ""
  {
    if b <= |s| then s[a..b] else if a <= |s| then s[a..] else ""
  }

  /** The ASCII characters `str.strip()` and `int()` treat as whitespace. */
  predicate IsSpace(ch: char)
  {
    ch == ' ' || ('\t' <= ch <= '\r') || ('\U{1C}' <= ch <= '\U{1F}')
  }

  predicate IsDigit(ch: char)
  {
    '0' <= ch <= '9'
  }

  function DigitValue(ch: char): (n: nat)
    requires IsDigit(ch)
    ensures n <= 9
  {
    (ch as int) - ('0' as int)
  }

  function DigitChar(n: nat): (ch: char)
    requires n <= 9
    ensures IsDigit(ch) && DigitValue(ch) == n
  {
    ((n + '0' as int) as char)
  }

  function StripLeft(t: string): (r: string)
    ensures r == [] || !IsSpace(r[0])
  {
    if |t| > 0 && IsSpace(t[0]) then StripLeft(t[1..]) else t
  }

  function StripRight(t: string): (r: string)
    ensures r == [] || !IsSpace(r[|r| - 1])
  {
    if |t| > 0 && IsSpace(t[|t| - 1]) then StripRight(t[..|t| - 1]) else t
  }

  /** `str.strip()`: leading and trailing whitespace removed. */
  function Strip(t: string): string
  {
    StripRight(StripLeft(t))
  }

  /**
   * The digit part of an `int()` literal: decimal digits, where single
   * underscores may separate two digits.
   */
  predicate WellGrouped(u: string)
  {
    && |u| > 0
    && IsDigit(u[0])
    && IsDigit(u[|u| - 1])
    && (forall k :: 0 <= k < |u| ==> IsDigit(u[k]) || u[k] == '_')
    && (forall k :: 0 <= k < |u| - 1 ==> u[k] == '_' ==> u[k + 1] != '_')
  }

  /** The value of a digit string, underscores skipped. */
  function DigitsValue(u: string): nat
    requires forall k :: 0 <= k < |u| ==> IsDigit(u[k]) || u[k] == '_'
  {
    if u == [] then 0
    else if u[|u| - 1] == '_' then DigitsValue(u[..|u| - 1])
    else 10 * DigitsValue(u[..|u| - 1]) + DigitValue(u[|u| - 1])
  }

  /** Python's `int(t)` on a string, base 10; `None` is the ValueError it raises. */
  function ParseInt(t: string): (r: Option<int>)
    ensures Strip(t) == "" ==> r == None
    ensures |t| > 0 && (forall k :: 0 <= k < |t| ==> IsDigit(t[k])) ==> r == Some(DigitsValue(t))
  {
    var u := Strip(t);
    if |u| > 0 && (u[0] == '+' || u[0] == '-') then
      var body := u[1..];
      if WellGrouped(body) then
        var n: int := DigitsValue(body);
        Some(if u[0] == '-' then -n else n)
      else None
    else if WellGrouped(u) then Some(DigitsValue(u))
    else None
  }

  /** A two-digit field parses to its decimal value. */
  lemma ParseIntTwoDigits(a: char, b: char)
    requires IsDigit(a) && IsDigit(b)
    ensures ParseInt([a, b]) == Some(10 * DigitValue(a) + DigitValue(b))
  {
    var t := [a, b];
    assert StripLeft(t) == t;
    assert StripRight(t) == t;
    assert Strip(t) == t;
    assert !(t[0] == '+' || t[0] == '-');
    assert WellGrouped(t);
    assert t[..1] == [a];
    assert [a][..0] == [];
    assert DigitsValue([a]) == DigitValue(a);
  }

  /** Python's `s * n`. */
  function Repeat(s: string, n: nat): (r: string)
    ensures |r| == n * |s|
  {
    if n == 0 then ""
    else
      assert n * |s| == |s| + (n - 1) * |s|;
      s + Repeat(s, n - 1)
  }

  /** Python's `s.split(sep)` for a one-character separator. */
  function Split(s: string, sep: char): (r: seq<string>)
    ensures |r| == Count(s, sep) + 1
    ensures forall k :: 0 <= k < |r| ==> sep !in r[k]
  {
    if |s| == 0 then [""]
    else
      var rest := Split(s[1..], sep);
      if s[0] == sep then [""] + rest else [[s[0]] + rest[0]] + rest[1..]
  }

  /** Python's `list(filter(None, xs))` on strings: the empty strings dropped. */
  function NonEmpty(xs: seq<string>): (r: seq<string>)
    ensures |r| <= |xs|
    ensures forall x :: x in r <==> x in xs && x != ""
  {
    if xs == [] then [] else (if xs[0] == "" then [] else [xs[0]]) + NonEmpty(xs[1..])
  }

  /** `n` copies of `w`, as a list. */
  function Copies(w: string, n: nat): (r: seq<string>)
    ensures |r| == n && forall k :: 0 <= k < n ==> r[k] == w
  {
    seq(n, _ => w)
  }

  /** Number of occurrences of `c` in `s`. */
  function Count(s: string, c: char): nat
  {
    if s == [] then 0 else (if s[0] == c then 1 else 0) + Count(s[1..], c)
  }

  lemma {:induction false} CountAppend(s: string, t: string, c: char)
    ensures Count(s + t, c) == Count(s, c) + Count(t, c)
  {
    if s == [] {
      assert s + t == t;
    } else {
      assert (s + t)[1..] == s[1..] + t;
      CountAppend(s[1..], t, c);
    }
  }

  lemma {:induction false} CountZero(s: string, c: char)
    ensures Count(s, c) == 0 <==> c !in s
  {
    if s != [] {
      CountZero(s[1..], c);
      assert c in s <==> s[0] == c || c in s[1..];
    }
  }

  /** A string without the separator splits into itself alone. */
  lemma {:induction false} SplitNoSep(s: string, sep: char)
    requires sep !in s
    ensures Split(s, sep) == [s]
  {
    if |s| > 0 {
      assert sep !in s[1..] by {
        forall k | 0 <= k < |s[1..]| ensures s[1..][k] != sep {
          assert s[1..][k] == s[k + 1];
        }
      }
      SplitNoSep(s[1..], sep);
      assert [s[0]] + s[1..] == s;
    }
  }

  /** A leading word free of the separator becomes the first piece. */
  lemma {:induction false} SplitWord(w: string, t: string, sep: char)
    requires sep !in w
    ensures Split(w + [sep] + t, sep) == [w] + Split(t, sep)
  {
    if w == [] {
      assert w + [sep] + t == [sep] + t;
      assert ([sep] + t)[1..] == t;
    } else {
      assert (w + [sep] + t)[1..] == w[1..] + [sep] + t;
      assert sep !in w[1..] by {
        forall k | 0 <= k < |w[1..]| ensures w[1..][k] != sep {
          assert w[1..][k] == w[k + 1];
        }
      }
      SplitWord(w[1..], t, sep);
      assert [w[0]] + w[1..] == w;
    }
  }

  /** `(w + sep) * n` splits into `n` copies of `w` and a trailing empty piece. */
  lemma {:induction false} SplitRepeat(w: string, n: nat, sep: char)
    requires sep !in w
    ensures Split(Repeat(w + [sep], n), sep) == Copies(w, n) + [""]
  {
    if n == 0 {
      assert Repeat(w + [sep], 0) == "";
    } else {
      calc {
        Split(Repeat(w + [sep], n), sep);
        Split(w + [sep] + Repeat(w + [sep], n - 1), sep);
        { SplitWord(w, Repeat(w + [sep], n - 1), sep); }
        [w] + Split(Repeat(w + [sep], n - 1), sep);
        { SplitRepeat(w, n - 1, sep); }
        [w] + (Copies(w, n - 1) + [""]);
        { assert [w] + Copies(w, n - 1) == Copies(w, n); }
        Copies(w, n) + [""];
      }
    }
  }

  lemma {:induction false} NonEmptyAppend(xs: seq<string>, ys: seq<string>)
    ensures NonEmpty(xs + ys) == NonEmpty(xs) + NonEmpty(ys)
  {
    if xs == [] {
      assert xs + ys == ys;
    } else {
      assert (xs + ys)[1..] == xs[1..] + ys;
      NonEmptyAppend(xs[1..], ys);
    }
  }

  /** Copies of a non-empty word survive the filter; the trailing piece does not. */
  lemma {:induction false} NonEmptyCopies(w: string, n: nat)
    requires w != ""
    ensures NonEmpty(Copies(w, n) + [""]) == Copies(w, n)
  {
    if n == 0 {
      assert Copies(w, 0) + [""] == [""];
    } else {
      assert (Copies(w, n) + [""])[1..] == Copies(w, n - 1) + [""];
      NonEmptyCopies(w, n - 1);
      assert [w] + Copies(w, n - 1) == Copies(w, n);
    }
  }
}
