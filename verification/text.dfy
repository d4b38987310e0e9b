/** The text primitives the request handler is built from: `char::is_whitespace`
    and `str::trim`, the decimal rendering of a `usize` by `format!`, and
    substring search. */
module Text {

  datatype Option<T> = None | Some(value: T)

  // ---------------------------------------------------------------------------
  // Whitespace and trimming
  // ---------------------------------------------------------------------------

  /** The Unicode White_Space property, which is exactly what Rust's
      `char::is_whitespace` tests (and so what `str::trim` strips). */
  predicate IsWhitespace(c: char): (b: bool)
    ensures c == '\t' || c == '\n' || c == '\r' || c == ' ' ==> b
    ensures '!' <= c <= '~' ==> !b
  {
    var n := c as int;
    (0x09 <= n <= 0x0D) || n == 0x20 || n == 0x85 || n == 0xA0 || n == 0x1680
    || (0x2000 <= n <= 0x200A) || n == 0x2028 || n == 0x2029 || n == 0x202F
    || n == 0x205F || n == 0x3000
  }

  predicate AllWhitespace(s: string) {
    forall k :: 0 <= k < |s| ==> IsWhitespace(s[k])
  }

  /** Neither end of `t` is whitespace: `t` is what a trim can return. */
  predicate Trimmed(t: string) {
    t == [] || (!IsWhitespace(t[0]) && !IsWhitespace(t[|t| - 1]))
  }

  /** `str::trim_start`: drops the longest whitespace prefix. */
  function TrimStart(s: string): (r: string)
    ensures |r| <= |s| && r == s[|s| - |r|..]
    ensures AllWhitespace(s[..|s| - |r|])
    ensures r == [] || !IsWhitespace(r[0])
  {
    if s != [] && IsWhitespace(s[0]) then
      var r := TrimStart(s[1..]);
      var n := |s| - |r|;
      assert s[1..][n - 1..] == s[n..];
      assert s[..n] == [s[0]] + s[1..][..n - 1];
      r
    else
      s
  }

  /** `str::trim_end`: drops the longest whitespace suffix. */
  function TrimEnd(s: string): (r: string)
    ensures |r| <= |s| && r == s[..|r|]
    ensures AllWhitespace(s[|r|..])
    ensures r == [] || !IsWhitespace(r[|r| - 1])
  {
    if s != [] && IsWhitespace(s[|s| - 1]) then
      var r := TrimEnd(s[..|s| - 1]);
      assert s[..|s| - 1][..|r|] == s[..|r|];
      assert s[|r|..] == s[..|s| - 1][|r|..] + [s[|s| - 1]];
      r
    else
      s
  }

  /** `str::trim`: `s` without its leading and trailing whitespace. The result
      is itself trimmed; `TrimIsSlice` shows it is a slice of `s` cut only at
      whitespace. */
  function Trim(s: string): (r: string)
    ensures Trimmed(r)
    ensures |r| <= |s|
  {
    TrimEnd(TrimStart(s))
  }

  /** `r` is `s` with the whitespace prefix `s[..k]` and a whitespace suffix cut off. */
  predicate CutAtWhitespace(s: string, k: nat, r: string) {
    && k + |r| <= |s|
    && AllWhitespace(s[..k])
    && s[k..k + |r|] == r
    && AllWhitespace(s[k + |r|..])
  }

  /** What `Trim` removes is whitespace at the two ends and nothing else. */
  lemma TrimIsSlice(s: string)
    ensures exists k: nat :: CutAtWhitespace(s, k, Trim(s))
  {
    var t := TrimStart(s);
    var r := TrimEnd(t);
    assert r == Trim(s);
    var k := |s| - |t|;
    assert t == s[k..];
    assert s[k..k + |r|] == t[..|r|];
    assert s[k + |r|..] == t[|r|..];
    assert CutAtWhitespace(s, k, r);
  }

  lemma {:induction false} TrimStartSkipsWhitespace(w: string, x: string)
    requires AllWhitespace(w)
    ensures TrimStart(w + x) == TrimStart(x)
    decreases |w|
  {
    if w != [] {
      var s := w + x;
      assert s[0] == w[0];
      assert s[1..] == w[1..] + x;
      assert TrimStart(s) == TrimStart(s[1..]);
      TrimStartSkipsWhitespace(w[1..], x);
    } else {
      assert w + x == x;
    }
  }

  lemma {:induction false} TrimEndSkipsWhitespace(x: string, w: string)
    requires AllWhitespace(w)
    ensures TrimEnd(x + w) == TrimEnd(x)
    decreases |w|
  {
    if w != [] {
      assert (x + w)[..|x + w| - 1] == x + w[..|w| - 1];
      TrimEndSkipsWhitespace(x, w[..|w| - 1]);
    } else {
      assert x + w == x;
    }
  }

  /** Trimming is determined by its characterisation: cutting whitespace off both
      ends of a string until neither end is whitespace gives `Trim`. */
  lemma TrimUnique(w1: string, t: string, w2: string)
    requires AllWhitespace(w1) && AllWhitespace(w2) && Trimmed(t)
    ensures Trim(w1 + t + w2) == t
  {
    assert TrimStart(w1 + t + w2) == TrimStart(t + w2) by {
      assert w1 + t + w2 == w1 + (t + w2);
      TrimStartSkipsWhitespace(w1, t + w2);
    }
    TrimTrimmedThenWhitespace(t, w2);
  }

  /** A trimmed string followed by whitespace trims to itself. */
  lemma TrimTrimmedThenWhitespace(t: string, w: string)
    requires AllWhitespace(w) && Trimmed(t)
    ensures TrimEnd(TrimStart(t + w)) == t
  {
    if t == [] {
      assert t + w == w + [];
      TrimStartSkipsWhitespace(w, []);
    } else {
      assert (t + w)[0] == t[0];
      assert TrimStart(t + w) == t + w;
      TrimEndSkipsWhitespace(t, w);
      assert TrimEnd(t) == t;
    }
  }

  lemma {:induction false} TrimStartAppend(s: string, x: string)
    requires TrimStart(s) != []
    ensures TrimStart(s + x) == TrimStart(s) + x
    decreases |s|
  {
    assert (s + x)[0] == s[0];
    if IsWhitespace(s[0]) {
      assert (s + x)[1..] == s[1..] + x;
      TrimStartAppend(s[1..], x);
    }
  }

  /** Whitespace added around a string (a line terminator, say) never changes
      what it trims to. */
  lemma TrimIgnoresSurroundingWhitespace(w1: string, s: string, w2: string)
    requires AllWhitespace(w1) && AllWhitespace(w2)
    ensures Trim(w1 + s + w2) == Trim(s)
  {
    assert w1 + s + w2 == w1 + (s + w2);
    TrimStartSkipsWhitespace(w1, s + w2);
    if TrimStart(s) == [] {
      assert AllWhitespace(s) by { assert s[..|s|] == s; }
      TrimStartSkipsWhitespace(s, w2);
      TrimStartSkipsWhitespace(w2, []);
      assert w2 + [] == w2;
    } else {
      TrimStartAppend(s, w2);
      TrimEndSkipsWhitespace(TrimStart(s), w2);
    }
  }

  /** A string is its own trim exactly when neither end is whitespace; in
      particular trimming twice is trimming once. */
  lemma TrimFixedPoints(s: string)
    ensures Trim(s) == s <==> Trimmed(s)
    ensures Trim(Trim(s)) == Trim(s)
  {
    if Trimmed(s) {
      TrimUnique([], s, []);
      assert [] + s + [] == s;
    }
    TrimUnique([], Trim(s), []);
    assert [] + Trim(s) + [] == Trim(s);
  }

  // ---------------------------------------------------------------------------
  // Decimal numerals
  // ---------------------------------------------------------------------------

  predicate IsDigit(c: char) {
    '0' <= c <= '9'
  }

  predicate AllDigits(s: string) {
    forall k :: 0 <= k < |s| ==> IsDigit(s[k])
  }

  function DigitChar(d: nat): char
    requires d < 10
  {
    "0123456789"[d]
  }

  function DigitValue(c: char): nat
    requires IsDigit(c)
  {
    c as int - '0' as int
  }

  /** The `{}` rendering of a `usize`: a non-empty string of decimal digits with
      no leading zero, except for zero itself. */
  function Decimal(n: nat): (s: string)
    ensures s != [] && AllDigits(s)
    ensures s[0] == '0' ==> n == 0
  {
    if n < 10 then [DigitChar(n)] else Decimal(n / 10) + [DigitChar(n % 10)]
  }

  /** The value of a string of decimal digits. */
  function ParseDecimal(s: string): nat
    requires AllDigits(s)
  {
    if s == [] then 0 else ParseDecimal(s[..|s| - 1]) * 10 + DigitValue(s[|s| - 1])
  }

  /** Reading back the rendering of `n` gives `n`. */
  lemma {:induction false} DecimalRoundTrip(n: nat)
    ensures ParseDecimal(Decimal(n)) == n
  {
    if n >= 10 {
      DecimalRoundTrip(n / 10);
      var s := Decimal(n);
      assert s[..|s| - 1] == Decimal(n / 10);
    }
  }

  lemma {:induction false} ParseDecimalPositive(s: string)
    requires s != [] && AllDigits(s) && s[0] != '0'
    ensures ParseDecimal(s) >= 1
  {
    if |s| > 1 {
      ParseDecimalPositive(s[..|s| - 1]);
    }
  }

  /** Every digit string without a superfluous leading zero is the rendering of
      its own value, so `Decimal` is one-to-one onto such strings. */
  lemma {:induction false} DecimalCanonical(s: string)
    requires s != [] && AllDigits(s) && (s[0] != '0' || |s| == 1)
    ensures Decimal(ParseDecimal(s)) == s
  {
    if |s| > 1 {
      var p := s[..|s| - 1];
      DecimalCanonical(p);
      ParseDecimalPositive(p);
      var n := ParseDecimal(s);
      assert n / 10 == ParseDecimal(p) && n % 10 == DigitValue(s[|s| - 1]);
      assert "0123456789"[DigitValue(s[|s| - 1])] == s[|s| - 1];
      assert s == p + [s[|s| - 1]];
    } else {
      assert "0123456789"[DigitValue(s[0])] == s[0];
    }
  }

  // ---------------------------------------------------------------------------
  // Substring search
  // ---------------------------------------------------------------------------

  predicate OccursAt(s: string, p: string, k: nat) {
    k + |p| <= |s| && s[k..k + |p|] == p
  }

  /** The first position at which `p` occurs in `s`, if any. */
  function IndexOf(s: string, p: string): (r: Option<nat>)
    ensures r.Some? ==> OccursAt(s, p, r.value)
    ensures r.Some? ==> forall k: nat :: k < r.value ==> !OccursAt(s, p, k)
    ensures r.None? ==> forall k: nat :: !OccursAt(s, p, k)
    decreases |s|
  {
    if |s| < |p| then None
    else if s[..|p|] == p then Some(0)
    else
      match IndexOf(s[1..], p)
      case None =>
        assert forall k: nat :: k >= 1 && OccursAt(s, p, k) ==> OccursAt(s[1..], p, k - 1);
        None
      case Some(i) =>
        assert forall k: nat :: 1 <= k < i + 1 && OccursAt(s, p, k) ==> OccursAt(s[1..], p, k - 1);
        assert s[1..][i..i + |p|] == s[i + 1..i + 1 + |p|];
        Some(i + 1)
  }

  /** The first occurrence is the one with none before it. */
  lemma IndexOfFirst(s: string, p: string, m: nat)
    requires OccursAt(s, p, m)
    requires forall k: nat :: k < m ==> !OccursAt(s, p, k)
    ensures IndexOf(s, p) == Some(m)
  {
    var r := IndexOf(s, p);
    assert r.Some? && !(r.value < m) && !(r.value > m);
  }

  /** A pattern that begins with a character absent from the prefix `a` of `s`,
      and that occurs right after it, is first found there. */
  lemma IndexOfAt(s: string, a: string, p: string)
    requires p != [] && p[0] !in a
    requires |a| + |p| <= |s| && s[..|a|] == a && s[|a|..|a| + |p|] == p
    ensures IndexOf(s, p) == Some(|a|)
  {
    forall k: nat | k < |a| ensures !OccursAt(s, p, k) {
      assert s[k] == a[k];
      if k + |p| <= |s| {
        assert s[k..k + |p|][0] == s[k];
      }
    }
    IndexOfFirst(s, p, |a|);
  }

  /** A pattern that begins with a character absent from `a` is first found
      right after `a`. */
  lemma IndexOfAfterPrefix(a: string, p: string, b: string)
    requires p != [] && p[0] !in a
    ensures IndexOf(a + p + b, p) == Some(|a|)
  {
    var s := a + p + b;
    assert s[..|a|] == a && s[|a|..|a| + |p|] == p;
    IndexOfAt(s, a, p);
  }
}
