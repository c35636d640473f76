/**
  Text as the page script sees it. A JavaScript string is a sequence of UTF-16 code
  units: `.length`, `String.prototype.trim` and a regular expression without the `u`
  flag all work unit by unit, so page-provided text is modelled the same way.
 */
module JsText {

  newtype CodeUnit = x: int | 0 <= x < 0x1_0000

  type JsString = seq<CodeUnit>

  datatype Option<+T> = None | Some(value: T)

  const AtSign: CodeUnit := 0x40
  const FullStop: CodeUnit := 0x2E
  const NumberSign: CodeUnit := 0x23

  /** A Dafny string literal whose characters all lie in the Basic Multilingual Plane, unit by unit. */
  function Js(s: string): JsString
    requires forall i :: 0 <= i < |s| ==> s[i] as int < 0x1_0000
  {
    seq(|s|, i requires 0 <= i < |s| => s[i] as int as CodeUnit)
  }

  /**
    The units matched by `\s` in a regular expression and removed by `trim`: the
    WhiteSpace and LineTerminator code points of ECMAScript (TAB, VT, FF, SP, NBSP,
    ZWNBSP, the Unicode space separators, LF, CR, LS and PS).
   */
  predicate IsWhiteSpace(c: CodeUnit) {
    c == 0x09 || c == 0x0A || c == 0x0B || c == 0x0C || c == 0x0D || c == 0x20 ||
    c == 0xA0 || c == 0x1680 || (0x2000 <= c <= 0x200A) || c == 0x2028 || c == 0x2029 ||
    c == 0x202F || c == 0x205F || c == 0x3000 || c == 0xFEFF
  }

  predicate AllWhiteSpace(s: JsString) {
    forall i :: 0 <= i < |s| ==> IsWhiteSpace(s[i])
  }

  /** Neither end of `m` is white space (the empty string qualifies). */
  predicate Trimmed(m: JsString) {
    m == [] || (!IsWhiteSpace(m[0]) && !IsWhiteSpace(m[|m| - 1]))
  }

  /** `s` with its leading white space removed. */
  function TrimStart(s: JsString): (r: JsString)
    ensures |r| <= |s|
  {
    if s != [] && IsWhiteSpace(s[0]) then TrimStart(s[1..]) else s
  }

  /** `s` with its trailing white space removed. */
  function TrimEnd(s: JsString): (r: JsString)
    ensures |r| <= |s|
  {
    if s != [] && IsWhiteSpace(s[|s| - 1]) then TrimEnd(s[..|s| - 1]) else s
  }

  /** `String.prototype.trim`: white space removed from both ends. */
  function Trim(s: JsString): JsString {
    TrimEnd(TrimStart(s))
  }

  /** The number of white-space units `trim` removes at the front. */
  function Leading(s: JsString): nat {
    |s| - |TrimStart(s)|
  }

  /** `TrimStart` removes a prefix of white space and stops at the first other unit. */
  lemma {:induction false} TrimStartSpec(s: JsString)
    ensures TrimStart(s) == s[Leading(s)..]
    ensures forall i :: 0 <= i < Leading(s) ==> IsWhiteSpace(s[i])
    ensures TrimStart(s) == [] || !IsWhiteSpace(TrimStart(s)[0])
  {
    if s != [] && IsWhiteSpace(s[0]) {
      TrimStartSpec(s[1..]);
      forall i | 0 < i < Leading(s) ensures IsWhiteSpace(s[i]) {
        assert s[i] == s[1..][i - 1];
      }
    }
  }

  /** `TrimEnd` removes a suffix of white space and stops at the last other unit. */
  lemma {:induction false} TrimEndSpec(s: JsString)
    ensures TrimEnd(s) == s[..|TrimEnd(s)|]
    ensures forall i :: |TrimEnd(s)| <= i < |s| ==> IsWhiteSpace(s[i])
    ensures TrimEnd(s) == [] || !IsWhiteSpace(TrimEnd(s)[|TrimEnd(s)| - 1])
  {
    if s != [] && IsWhiteSpace(s[|s| - 1]) {
      TrimEndSpec(s[..|s| - 1]);
      forall i | |TrimEnd(s)| <= i < |s| - 1 ensures IsWhiteSpace(s[i]) {
        assert s[i] == s[..|s| - 1][i];
      }
    }
  }

  /**
    `trim` keeps a contiguous part of `s` that neither starts nor ends with white
    space, and everything it drops on either side is white space.
   */
  lemma TrimSpec(s: JsString)
    ensures Leading(s) + |Trim(s)| <= |s|
    ensures Trimmed(Trim(s))
    ensures Trim(s) == s[Leading(s)..Leading(s) + |Trim(s)|]
    ensures forall i :: 0 <= i < Leading(s) ==> IsWhiteSpace(s[i])
    ensures forall i :: Leading(s) + |Trim(s)| <= i < |s| ==> IsWhiteSpace(s[i])
  {
    var t := TrimStart(s);
    var r := Trim(s);
    var k := Leading(s);
    TrimStartSpec(s);
    TrimEndSpec(t);
    SliceOfSuffix(s, k, |r|);
    if r != [] {
      assert r[0] == t[0];
    }
    forall i | k + |r| <= i < |s| ensures IsWhiteSpace(s[i]) {
      assert s[i] == t[i - k];
    }
  }

  /** Prover helper: a prefix of a suffix is a slice. */
  lemma SliceOfSuffix<T>(s: seq<T>, k: nat, n: nat)
    requires k + n <= |s|
    ensures s[k..][..n] == s[k..k + n]
  {
  }

  /** Splitting a string into white space, a trimmed middle and white space determines the middle. */
  lemma {:induction false} TrimUnique(a: JsString, m: JsString, b: JsString)
    requires AllWhiteSpace(a) && AllWhiteSpace(b) && Trimmed(m)
    ensures Trim(a + m + b) == m
  {
    assert a + m + b == a + (m + b);
    if m == [] {
      assert a + m + b == a + b + [];
      TrimStartDrops(a + b, []);
      assert TrimEnd([]) == [];
    } else {
      TrimStartDrops(a, m + b);
      TrimEndDrops(m, b);
    }
  }

  lemma {:induction false} TrimStartDrops(a: JsString, t: JsString)
    requires AllWhiteSpace(a) && (t == [] || !IsWhiteSpace(t[0]))
    ensures TrimStart(a + t) == t
  {
    if a != [] {
      assert (a + t)[1..] == a[1..] + t;
      TrimStartDrops(a[1..], t);
    }
  }

  lemma {:induction false} TrimEndDrops(t: JsString, b: JsString)
    requires AllWhiteSpace(b) && (t == [] || !IsWhiteSpace(t[|t| - 1]))
    ensures TrimEnd(t + b) == t
  {
    if b != [] {
      assert (t + b)[..|t + b| - 1] == t + b[..|b| - 1];
      TrimEndDrops(t, b[..|b| - 1]);
    } else {
      assert t + b == t;
    }
  }
}
