/** The pricing page (frontend/components/Pricing.tsx): the colour and the
    width of the risk-score bar, and the labels of the exposure keys. */
module Pricing {
  import opened Wrap
  import opened Text

  const Red := "bg-red-600"
  const Yellow := "bg-yellow-600"
  const Blue := "bg-blue-600"

  /** `getRiskScoreColor` */
  function RiskScoreColor(score: int): (color: string)
    ensures color == Red || color == Yellow || color == Blue
  {
    if score <= 2 then Red
    else if score <= 4 then Yellow
    else Blue
  }

  /** The three bands cover every score and do not overlap: red up to 2,
      yellow above 2 up to 4, blue above 4. */
  lemma RiskScoreBands(score: int)
    ensures RiskScoreColor(score) == Red <==> score <= 2
    ensures RiskScoreColor(score) == Yellow <==> 2 < score <= 4
    ensures RiskScoreColor(score) == Blue <==> 4 < score
  {
  }

  /** The legend under the bar: "0-2: High Risk, 3-4: Medium Risk, 5: Low Risk". */
  datatype RiskLevel = High | Medium | Low

  function LegendLevel(score: int): (level: Option<RiskLevel>)
    ensures level.Some? <==> score in {0, 1, 2, 3, 4, 5}
  {
    if score in {0, 1, 2} then Some(High)
    else if score in {3, 4} then Some(Medium)
    else if score == 5 then Some(Low)
    else None
  }

  function LevelColor(level: RiskLevel): string
  {
    match level
    case High => Red
    case Medium => Yellow
    case Low => Blue
  }

  /** On the whole scores of the scale the bar's colour is the colour of the
      level the legend gives. */
  lemma ColorMatchesLegend(score: int)
    requires 0 <= score <= 5
    ensures RiskScoreColor(score) == LevelColor(LegendLevel(score).value)
  {
  }

  /** `getRiskScoreWidth` on the whole scores of the scale, where
      `(score / 5) * 100` is a whole number. */
  function RiskScoreWidth(score: int): (width: string)
    requires 0 <= score <= 5
  {
    Decimal(score * 100 / 5) + "%"
  }

  /** The width is a whole percentage that reads back as 20 per point: "0%"
      for 0 and "100%" for 5, growing with the score. */
  lemma RiskScoreWidthValue(score: int)
    requires 0 <= score <= 5
    ensures var w := RiskScoreWidth(score);
      && |w| >= 2 && w[|w| - 1] == '%'
      && (forall i :: 0 <= i < |w| - 1 ==> IsDigit(w[i]))
      && DigitsValue(w[..|w| - 1]) == 20 * score
    ensures score == 0 ==> RiskScoreWidth(score) == "0%"
    ensures score == 5 ==> RiskScoreWidth(score) == "100%"
  {
    var w := RiskScoreWidth(score);
    assert w[..|w| - 1] == Decimal(20 * score);
    DecimalRoundTrip(20 * score);
    if score == 5 {
      assert Decimal(100) == Decimal(10) + "0";
      assert Decimal(10) == Decimal(1) + "0";
    }
  }

  // ---------------------------------------------------------------------------
  // Exposure labels

  /** `key.replace(/([A-Z])/g, " $1")`: a space before every upper-case letter. */
  function SpaceBeforeUpper(key: string): (r: string)
    ensures key == [] <==> r == []
  {
    if key == [] then []
    else (if IsUpper(key[0]) then [' ', key[0]] else [key[0]]) + SpaceBeforeUpper(key[1..])
  }

  /** The label shown for an exposure key. */
  function ExposureLabel(key: string): string
  {
    Trim(SpaceBeforeUpper(key))
  }

  function CountUpper(s: string): nat
  {
    if s == [] then 0 else (if IsUpper(s[0]) then 1 else 0) + CountUpper(s[1..])
  }

  /** The replacement only inserts spaces, one per upper-case letter, each
      directly before its letter, and keeps the last character last. */
  lemma {:induction false} SpaceBeforeUpperShape(key: string)
    ensures var r := SpaceBeforeUpper(key);
      && InsertsSpaces(key, r)
      && |r| == |key| + CountUpper(key)
      && (forall i :: 0 <= i < |r| && IsUpper(r[i]) ==> 0 < i && r[i - 1] == ' ')
      && (key != [] ==> r[|r| - 1] == key[|key| - 1])
  {
    if key != [] {
      var rest := SpaceBeforeUpper(key[1..]);
      SpaceBeforeUpperShape(key[1..]);
      var r := SpaceBeforeUpper(key);
      if IsUpper(key[0]) {
        assert r == [' ', key[0]] + rest;
        assert r[1..][1..] == rest && r[1..][0] == key[0];
        assert InsertsSpaces(key[1..], r[1..][1..]);
        forall i | 0 <= i < |r| && IsUpper(r[i]) ensures 0 < i && r[i - 1] == ' ' {
          if i >= 2 { assert r[i] == rest[i - 2]; if i >= 3 { assert r[i - 1] == rest[i - 3]; } }
        }
      } else {
        assert r == [key[0]] + rest;
        assert r[1..] == rest;
        forall i | 0 <= i < |r| && IsUpper(r[i]) ensures 0 < i && r[i - 1] == ' ' {
          if i >= 1 { assert r[i] == rest[i - 1]; if i >= 2 { assert r[i - 1] == rest[i - 2]; } }
        }
      }
    }
  }

  /** A key without upper-case letters is left as it is by the replacement. */
  lemma {:induction false} SpaceBeforeUpperNoUpper(key: string)
    requires forall i :: 0 <= i < |key| ==> !IsUpper(key[i])
    ensures SpaceBeforeUpper(key) == key
  {
    if key != [] {
      SpaceBeforeUpperNoUpper(key[1..]);
      assert [key[0]] + key[1..] == key;
    }
  }

  /** A key with no upper-case letter and no white space at either end is
      shown unchanged. */
  lemma ExposureLabelUnchanged(key: string)
    requires forall i :: 0 <= i < |key| ==> !IsUpper(key[i])
    requires key == [] || (!IsJsWhite(key[0]) && !IsJsWhite(key[|key| - 1]))
    ensures ExposureLabel(key) == key
  {
    SpaceBeforeUpperNoUpper(key);
    TrimUnchanged(key);
  }

  /** For a key that neither starts nor ends with white space, the trim only
      removes the space inserted before a leading upper-case letter. */
  lemma ExposureLabelTrimsLeadingSpace(key: string)
    requires key != [] && !IsJsWhite(key[0]) && !IsJsWhite(key[|key| - 1])
    ensures ExposureLabel(key) == if IsUpper(key[0]) then SpaceBeforeUpper(key)[1..] else SpaceBeforeUpper(key)
  {
    var r := SpaceBeforeUpper(key);
    SpaceBeforeUpperShape(key);
    var start := if IsUpper(key[0]) then r[1..] else r;
    assert start[0] == key[0];
    assert TrimStart(r) == start by {
      if IsUpper(key[0]) {
        assert r[0] == ' ' && IsJsWhite(r[0]);
      }
    }
    assert start[|start| - 1] == key[|key| - 1];
  }
}
