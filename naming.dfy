/**
  Screenshot file names and the names of the diff artifacts.

  A screenshot is recognised by the regular expression `(ESC\d{3})_(\d+)\.png$`
  (vrt/misw-4103-pixelmatch/index.js:23): anchored at the end only, so any text
  may precede the scenario code. `\d` matches the ASCII digits only.
*/
module Naming {
  import opened Wrappers

  predicate IsDigit(c: char) { '0' <= c <= '9' }

  predicate AllDigits(s: string) { forall i :: 0 <= i < |s| ==> IsDigit(s[i]) }

  /** The value `parseInt(ds, 10)` gives for a run of decimal digits. */
  function DecimalValue(ds: string): nat
    requires AllDigits(ds)
  {
    if ds == [] then 0
    else DecimalValue(ds[..|ds| - 1]) * 10 + (ds[|ds| - 1] as int - '0' as int)
  }

  function DigitChar(d: nat): (c: char)
    requires d < 10
    ensures IsDigit(c) && c as int - '0' as int == d
  {
    (d + '0' as int) as char
  }

  /** How a template literal renders a step number: decimal, no leading zeros. */
  function DecimalString(n: nat): (s: string)
    ensures |s| > 0 && AllDigits(s)
    ensures s[0] == '0' ==> s == "0"
    ensures DecimalValue(s) == n
  {
    if n < 10 then [DigitChar(n)]
    else
      var s := DecimalString(n / 10) + [DigitChar(n % 10)];
      assert s[..|s| - 1] == DecimalString(n / 10);
      s
  }

  /** Leading zeros do not change the step a digit run denotes. */
  lemma {:induction false} LeadingZeroIgnored(ds: string)
    requires AllDigits(ds)
    ensures AllDigits("0" + ds) && DecimalValue("0" + ds) == DecimalValue(ds)
  {
    var z := "0" + ds;
    assert AllDigits(z) by {
      forall i | 0 <= i < |z| ensures IsDigit(z[i]) {
        if i > 0 { assert z[i] == ds[i - 1]; }
      }
    }
    if ds != [] {
      var init := ds[..|ds| - 1];
      assert z[..|z| - 1] == "0" + init;
      LeadingZeroIgnored(init);
    }
  }

  /** The scenario code and step number carried by a screenshot name. */
  datatype ShotName = ShotName(scenario: string, step: nat)

  /**
    The regular expression matches `name` with the match starting at `i`:
    `name[i..]` is "ESC", three digits, '_', one or more digits, ".png".
  */
  ghost predicate SuffixMatch(name: string, i: nat)
  {
    && i + 12 <= |name|
    && name[i..i + 3] == "ESC"
    && AllDigits(name[i + 3..i + 6])
    && name[i + 6] == '_'
    && AllDigits(name[i + 7..|name| - 4])
    && name[|name| - 4..] == ".png"
  }

  /** Start of the maximal run of digits that ends just before position `e`. */
  function DigitRunStart(s: string, e: nat): (b: nat)
    requires e <= |s|
    ensures b <= e && AllDigits(s[b..e])
    ensures b == 0 || !IsDigit(s[b - 1])
  {
    if e > 0 && IsDigit(s[e - 1]) then
      var b := DigitRunStart(s, e - 1);
      assert s[b..e] == s[b..e - 1] + [s[e - 1]];
      b
    else e
  }

  /** AllDigits of a slice, stated position by position. */
  lemma AllDigitsSlice(s: string, j: nat, e: nat)
    requires j <= e <= |s|
    ensures AllDigits(s[j..e]) <==> forall k :: j <= k < e ==> IsDigit(s[k])
  {
    if AllDigits(s[j..e]) {
      forall k | j <= k < e ensures IsDigit(s[k]) {
        assert s[j..e][k - j] == s[k];
      }
    }
  }

  /** A run of digits that ends at `e` and is not preceded by a digit starts where DigitRunStart says. */
  lemma DigitRunStartUnique(s: string, j: nat, e: nat)
    requires j <= e <= |s|
    requires AllDigits(s[j..e]) && (j == 0 || !IsDigit(s[j - 1]))
    ensures DigitRunStart(s, e) == j
  {
    var b := DigitRunStart(s, e);
    AllDigitsSlice(s, j, e);
    AllDigitsSlice(s, b, e);
  }

  /**
    `file.match(/(ESC\d{3})_(\d+)\.png$/)` with the two groups turned into a
    scenario code and `parseInt(step, 10)`; None where the expression does not match.
  */
  function ParseName(name: string): (r: Option<ShotName>)
    ensures r.Some? <==> exists i: nat :: SuffixMatch(name, i)
    ensures forall i: nat :: SuffixMatch(name, i) ==>
              r == Some(ShotName(name[i..i + 6], DecimalValue(name[i + 7..|name| - 4])))
  {
    if |name| < 12 || name[|name| - 4..] != ".png" then None
    else
      var e := |name| - 4;
      var b := DigitRunStart(name, e);
      assert forall i: nat :: SuffixMatch(name, i) ==> i + 7 == b by {
        forall i: nat | SuffixMatch(name, i) ensures i + 7 == b {
          DigitRunStartUnique(name, i + 7, e);
        }
      }
      if b == e || b < 7 then None
      else if name[b - 1] == '_' && AllDigits(name[b - 4..b - 1]) && name[b - 7..b - 4] == "ESC" then
        assert SuffixMatch(name, b - 7);
        Some(ShotName(name[b - 7..b - 1], DecimalValue(name[b..e])))
      else None
  }

  /** `diff_<step>.png`, the diff artifact of one step (index.js:156). */
  function DiffFileName(step: nat): string
  {
    "diff_" + DecimalString(step) + ".png"
  }

  /** `<scenario>/diff_<step>.png`, the diff path a report row refers to (index.js:188). */
  function DiffReportPath(scenario: string, step: nat): string
  {
    scenario + "/" + DiffFileName(step)
  }

  /** Distinct steps get distinct diff artifacts; equal steps share (and overwrite) one. */
  lemma DiffFileNameInjective(s1: nat, s2: nat)
    ensures DiffFileName(s1) == DiffFileName(s2) <==> s1 == s2
  {
    if DiffFileName(s1) == DiffFileName(s2) {
      var d1, d2 := DecimalString(s1), DecimalString(s2);
      assert |d1| == |d2|;
      assert d1 == DiffFileName(s1)[5..5 + |d1|];
      assert d2 == DiffFileName(s2)[5..5 + |d2|];
    }
  }

  /** Within one scenario, two diff paths coincide exactly when their steps do. */
  lemma DiffReportPathInjective(scenario: string, s1: nat, s2: nat)
    ensures DiffReportPath(scenario, s1) == DiffReportPath(scenario, s2) <==> s1 == s2
  {
    var p := |scenario| + 1;
    if DiffReportPath(scenario, s1) == DiffReportPath(scenario, s2) {
      assert DiffFileName(s1) == DiffReportPath(scenario, s1)[p..];
      assert DiffFileName(s2) == DiffReportPath(scenario, s2)[p..];
    }
    DiffFileNameInjective(s1, s2);
  }

  /** `ESC017_01.png` and `ESC017_1.png` name the same scenario and step. */
  lemma LeadingZerosCollapse()
    ensures ParseName("ESC017_01.png") == Some(ShotName("ESC017", 1))
    ensures ParseName("ESC017_1.png") == Some(ShotName("ESC017", 1))
  {
    var a, b := "ESC017_01.png", "ESC017_1.png";
    assert a[3..6] == "017" && a[7..9] == "01" && "01"[..1] == "0";
    assert SuffixMatch(a, 0);
    assert a[0..6] == "ESC017" && a[7..|a| - 4] == "01";
    assert "0"[..0] == [] && DecimalValue("0") == 0 && DecimalValue("01") == 1;
    assert b[3..6] == "017" && b[7..8] == "1";
    assert SuffixMatch(b, 0);
    assert b[0..6] == "ESC017" && b[7..|b| - 4] == "1";
    assert "1"[..0] == [] && DecimalValue("1") == 1;
  }

  /** Any prefix is allowed before the scenario code; other names do not match. */
  lemma PrefixAllowedOthersSkipped()
    ensures ParseName("shot-ESC003_12.png") == Some(ShotName("ESC003", 12))
    ensures ParseName("ESC003_1.jpg") == None
  {
    var a := "shot-ESC003_12.png";
    assert a[8..11] == "003" by { assert a[8] == '0' && a[9] == '0' && a[10] == '3'; }
    assert a[12..14] == "12" by { assert a[12] == '1' && a[13] == '2'; }
    assert "12"[..1] == "1";
    assert SuffixMatch(a, 5);
    assert a[5..11] == "ESC003" && a[12..|a| - 4] == "12";
    assert "1"[..0] == [] && DecimalValue("1") == 1 && DecimalValue("12") == 12;
  }
}
