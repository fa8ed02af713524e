/** The two fixed lookup tables keyed by a record's community level: the
    sort weight of `compare_by_covid_level` and the display colour of `main`.
    Both are consulted with the level lowered first, and both fail (Python's
    `KeyError`) on any other spelling. */
module Levels {
  import opened Results
  import opened Ascii

  /** The three community levels the data set publishes. */
  datatype Severity = High | Medium | Low

  /** Display colours handed to the terminal-colouring library. */
  datatype Color = Red | Yellow | Green

  /** The `KeyError` of a failed lookup in either table, carrying the key
      looked up: the level after lowering. */
  datatype LevelError = UnknownLevel(key: string)

  /** The table `weights` of `compare_by_covid_level`. */
  const Weights: map<string, nat> := map["high" := 0, "medium" := 1, "low" := 2]

  /** The table `colors` of `main`. */
  const Colors: map<string, Color> := map["high" := Red, "medium" := Yellow, "low" := Green]

  /** The lower-case spellings accepted by both tables. */
  predicate Known(level: string) {
    Lower(level) == "high" || Lower(level) == "medium" || Lower(level) == "low"
  }

  /** `weights[level.lower()]`, `None` standing for the `KeyError`: high 0,
      medium 1, low 2, and nothing else. */
  function Rank(level: string): (r: Option<nat>)
    ensures r == Some(0) <==> Lower(level) == "high"
    ensures r == Some(1) <==> Lower(level) == "medium"
    ensures r == Some(2) <==> Lower(level) == "low"
    ensures r.None? <==> !Known(level)
  {
    var key := Lower(level);
    if key in Weights then Some(Weights[key]) else None
  }

  /** `colors[level.lower()]`, `None` standing for the `KeyError`: high red,
      medium yellow, low green, and nothing else. */
  function ColorOf(level: string): (r: Option<Color>)
    ensures r == Some(Red) <==> Lower(level) == "high"
    ensures r == Some(Yellow) <==> Lower(level) == "medium"
    ensures r == Some(Green) <==> Lower(level) == "low"
    ensures r.None? <==> !Known(level)
  {
    var key := Lower(level);
    if key in Colors then Some(Colors[key]) else None
  }

  /** The enumerated reading of a level, for statements about ranks. */
  function SeverityOf(level: string): (r: Option<Severity>)
    ensures r.Some? <==> Known(level)
    ensures r == Some(High) <==> Lower(level) == "high"
    ensures r == Some(Medium) <==> Lower(level) == "medium"
    ensures r == Some(Low) <==> Lower(level) == "low"
  {
    var key := Lower(level);
    if key == "high" then Some(High)
    else if key == "medium" then Some(Medium)
    else if key == "low" then Some(Low)
    else None
  }

  /** Rank of each severity, the order in which the report lists them. */
  function SeverityRank(s: Severity): nat
  {
    match s
    case High => 0
    case Medium => 1
    case Low => 2
  }

  function SeverityColor(s: Severity): Color
  {
    match s
    case High => Red
    case Medium => Yellow
    case Low => Green
  }

  /** Both tables read the same severity: a level has a weight exactly when
      it has a colour, and high is red, medium yellow, low green. */
  lemma TablesAgree(level: string)
    ensures Rank(level).Some? <==> ColorOf(level).Some?
    ensures SeverityOf(level).Some? ==>
              && Rank(level) == Some(SeverityRank(SeverityOf(level).value))
              && ColorOf(level) == Some(SeverityColor(SeverityOf(level).value))
  {
  }

  /** Lookups ignore case: two levels with the same lower-case form get the
      same weight and colour. */
  lemma CaseInsensitive(a: string, b: string)
    requires Lower(a) == Lower(b)
    ensures Rank(a) == Rank(b)
    ensures ColorOf(a) == ColorOf(b)
  {
  }

  /** Looking a lowered level up again changes nothing. */
  lemma RankOfLowered(level: string)
    ensures Rank(Lower(level)) == Rank(level)
    ensures ColorOf(Lower(level)) == ColorOf(level)
  {
    LowerIdempotent(level);
    CaseInsensitive(Lower(level), level);
  }

  lemma HighSpellings()
    ensures Rank("HIGH") == Rank("High") == Rank("high") == Some(0)
    ensures ColorOf("HIGH") == ColorOf("High") == ColorOf("high") == Some(Red)
  {
    assert Lower("HIGH") == "high";
    assert Lower("High") == "high";
    assert Lower("high") == "high";
  }

  lemma OtherSpellings()
    ensures Rank("Medium") == Some(1) && ColorOf("Medium") == Some(Yellow)
    ensures Rank("LOW") == Some(2) && ColorOf("LOW") == Some(Green)
  {
    assert Lower("Medium") == "medium";
    assert Lower("LOW") == "low";
  }

  lemma UnknownSpellings()
    ensures Rank("critical").None? && ColorOf("critical").None?
    ensures Rank("").None? && ColorOf("").None?
  {
    assert Lower("critical") == "critical";
    assert Lower("") == "";
  }
}
