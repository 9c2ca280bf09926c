/** JavaScript string primitives used by the editor and the notes panel.
    A JavaScript string is a sequence of UTF-16 code units: `length`, indexing,
    `substring` and DOM selection offsets all count code units, so the model
    does too. */
module JsText {

  newtype CodeUnit = x: int | 0 <= x < 0x1_0000

  type JsString = seq<CodeUnit>

  /** ECMAScript WhiteSpace or LineTerminator: the code units matched by `\s`,
      rejected by `\S`, and removed by `String.prototype.trim`. */
  predicate IsWhitespace(c: CodeUnit)
    ensures IsWhitespace(c) ==> !IsDigit(c) && !(0x41 <= c <= 0x5A) && !(0x61 <= c <= 0x7A)
    ensures c < 0x80 ==> (IsWhitespace(c) <==> c == 0x20 || 0x09 <= c <= 0x0D)
  {
    || c == 0x09 || c == 0x0A || c == 0x0B || c == 0x0C || c == 0x0D
    || c == 0x20 || c == 0xA0 || c == 0x1680 || (0x2000 <= c <= 0x200A)
    || c == 0x2028 || c == 0x2029 || c == 0x202F || c == 0x205F
    || c == 0x3000 || c == 0xFEFF
  }

  predicate NoWhitespace(s: JsString) {
    forall i :: 0 <= i < |s| ==> !IsWhitespace(s[i])
  }

  predicate AllWhitespace(s: JsString) {
    forall i :: 0 <= i < |s| ==> IsWhitespace(s[i])
  }

  // ---------------------------------------------------------------------------
  // trim

  /** Drops the leading whitespace: what is left is a suffix of `s` that starts
      with a non-whitespace code unit (or is empty), and what was dropped is all
      whitespace. */
  function TrimStart(s: JsString): (r: JsString)
    ensures |r| <= |s| && r == s[|s| - |r|..]
    ensures AllWhitespace(s[..|s| - |r|])
    ensures r == [] || !IsWhitespace(r[0])
    decreases |s|
  {
    if s != [] && IsWhitespace(s[0]) then
      var r := TrimStart(s[1..]);
      assert forall i :: 1 <= i < |s| - |r| ==> s[i] == s[1..][..|s| - 1 - |r|][i - 1];
      r
    else
      s
  }

  /** Drops the trailing whitespace: what is left is a prefix of `s` that ends
      with a non-whitespace code unit (or is empty), and what was dropped is all
      whitespace. */
  function TrimEnd(s: JsString): (r: JsString)
    ensures |r| <= |s| && r == s[..|r|]
    ensures AllWhitespace(s[|r|..])
    ensures r == [] || !IsWhitespace(r[|r| - 1])
    decreases |s|
  {
    if s != [] && IsWhitespace(s[|s| - 1]) then
      var r := TrimEnd(s[..|s| - 1]);
      assert forall i :: |r| <= i < |s| - 1 ==> s[i] == s[..|s| - 1][|r|..][i - |r|];
      r
    else
      s
  }

  /** `String.prototype.trim`. */
  function Trim(s: JsString): (r: JsString)
    ensures r == [] || (!IsWhitespace(r[0]) && !IsWhitespace(r[|r| - 1]))
  {
    TrimEnd(TrimStart(s))
  }

  /** `s.trim()` is the slice `s[a..b]` of `s`, and everything cut off on
      either side is whitespace. */
  lemma {:induction false} TrimIsInfix(s: JsString) returns (a: nat, b: nat)
    ensures a <= b <= |s| && Trim(s) == s[a..b]
    ensures AllWhitespace(s[..a]) && AllWhitespace(s[b..])
  {
    var t := TrimStart(s);
    a := |s| - |t|;
    var r := TrimEnd(t);
    b := a + |r|;
    assert Trim(s) == r;
    assert AllWhitespace(s[..|s| - |t|]);
    assert AllWhitespace(s[..a]);
    assert t == s[a..];
    assert r == t[..|r|];
    assert r == s[a..b];
    assert AllWhitespace(t[|r|..]);
    assert t[|r|..] == s[b..];
  }

  /** A whitespace-only string trims to nothing at the front. This is a
      corollary of `TrimStart`'s contract: a non-empty result would be a
      suffix of `s` starting with a non-whitespace code unit. */
  lemma TrimStartAllWhitespace(s: JsString)
    requires AllWhitespace(s)
    ensures TrimStart(s) == []
  {
  }

  /** `s.trim()` is empty exactly when `s` is whitespace only. */
  lemma TrimEmptyIffAllWhitespace(s: JsString)
    ensures Trim(s) == [] <==> AllWhitespace(s)
  {
    if AllWhitespace(s) {
      TrimStartAllWhitespace(s);
    }
    if Trim(s) == [] {
      assert TrimStart(s) == [];
      assert s[..|s|] == s;
    }
  }

  /** A string without whitespace is its own `trim()`. */
  lemma TrimNoWhitespace(s: JsString)
    requires NoWhitespace(s)
    ensures Trim(s) == s
  {
    assert s == [] || !IsWhitespace(s[0]);
    assert s == [] || !IsWhitespace(s[|s| - 1]);
  }

  // ---------------------------------------------------------------------------
  // toLowerCase, restricted to ASCII letters

  function ToLowerUnit(c: CodeUnit): CodeUnit {
    if 0x41 <= c <= 0x5A then c + 0x20 else c
  }

  /** `String.prototype.toLowerCase` on ASCII: each upper-case letter A-Z
      becomes its lower-case letter, every other code unit is kept. */
  function ToLower(s: JsString): (r: JsString)
    ensures |r| == |s|
  {
    seq(|s|, i requires 0 <= i < |s| => ToLowerUnit(s[i]))
  }

  /** Lower-casing twice is lower-casing once. */
  lemma ToLowerIdempotent(s: JsString)
    ensures ToLower(ToLower(s)) == ToLower(s)
  {
  }

  /** Lower-casing never turns a non-empty string into the empty one. */
  lemma ToLowerEmpty(s: JsString)
    ensures ToLower(s) == [] <==> s == []
  {
  }

  // ---------------------------------------------------------------------------
  // includes

  predicate StartsWith(s: JsString, p: JsString) {
    |p| <= |s| && s[..|p|] == p
  }

  /** `String.prototype.includes`, computed by trying each start position. */
  predicate Includes(s: JsString, p: JsString)
    ensures StartsWith(s, p) ==> Includes(s, p)
    ensures Includes(s, p) ==> |p| <= |s|
    decreases |s|
  {
    StartsWith(s, p) || (s != [] && Includes(s[1..], p))
  }

  /** `p` occurs in `s` starting at position `i`. */
  predicate OccursAt(s: JsString, p: JsString, i: int) {
    0 <= i <= |s| - |p| && s[i..i + |p|] == p
  }

  /** `s.includes(p)` holds exactly when `p` occurs in `s` at some position. */
  lemma {:induction false} IncludesIffOccurs(s: JsString, p: JsString)
    ensures Includes(s, p) <==> exists i :: OccursAt(s, p, i)
    decreases |s|
  {
    if StartsWith(s, p) {
      assert OccursAt(s, p, 0);
    }
    if s != [] {
      IncludesIffOccurs(s[1..], p);
      if Includes(s[1..], p) {
        var i :| OccursAt(s[1..], p, i);
        assert s[1..][i..i + |p|] == s[i + 1..i + 1 + |p|];
        assert OccursAt(s, p, i + 1);
      }
      if i :| OccursAt(s, p, i) && i > 0 {
        assert s[1..][i - 1..i - 1 + |p|] == s[i..i + |p|];
        assert OccursAt(s[1..], p, i - 1);
      }
    }
  }

  /** Every string includes the empty string. */
  lemma IncludesEmpty(s: JsString)
    ensures Includes(s, [])
  {
  }

  // ---------------------------------------------------------------------------
  // Number.prototype.toString on non-negative integers

  predicate IsDigit(c: CodeUnit) {
    0x30 <= c <= 0x39
  }

  predicate AllDigits(s: JsString) {
    forall i :: 0 <= i < |s| ==> IsDigit(s[i])
  }

  function DigitUnit(d: nat): CodeUnit
    requires d < 10
  {
    (0x30 + d) as CodeUnit
  }

  /** The decimal numeral of `n` (what `n.toString()` gives for an integer
      below 10^21): non-empty, all digits, no leading zero. */
  function NatToString(n: nat): (s: JsString)
    ensures s != [] && AllDigits(s)
    ensures n == 0 ==> s == [0x30]
    ensures n > 0 ==> s[0] != 0x30
    decreases n
  {
    if n < 10 then [DigitUnit(n)] else NatToString(n / 10) + [DigitUnit(n % 10)]
  }

  /** The value of a decimal numeral. */
  function ParseDecimal(s: JsString): nat
    requires AllDigits(s)
    decreases |s|
  {
    if s == [] then 0 else 10 * ParseDecimal(s[..|s| - 1]) + (s[|s| - 1] as int - 0x30)
  }

  /** Reading back the numeral of `n` gives `n`. */
  lemma {:induction false} ParseNatToString(n: nat)
    ensures ParseDecimal(NatToString(n)) == n
    decreases n
  {
    if n >= 10 {
      var s := NatToString(n);
      assert s[..|s| - 1] == NatToString(n / 10);
      ParseNatToString(n / 10);
    }
  }

  /** Different clock readings give different id strings. */
  lemma NatToStringInjective(a: nat, b: nat)
    ensures NatToString(a) == NatToString(b) ==> a == b
  {
    ParseNatToString(a);
    ParseNatToString(b);
  }
}
