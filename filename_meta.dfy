/**
 * The filename-to-metadata rule shared by the glob loaders
 * (task1_code1.py, task1_code2.py, task2_code1.py, task2_code2.py):
 * group from the control marker, gender from a marker that depends on the group,
 * year from the leftmost `第(\d+)年` match; a name without that match fails.
 */
module FilenameMeta {
  import opened Wrappers
  import opened Decimal
  import opened Strings

  datatype Group = Experimental | Control
  datatype Gender = Male | Female
  datatype Meta = Meta(group: Group, gender: Gender, year: nat)

  const ControlMarker: string := "对照组"
  const ControlMaleMarker: string := "S_"
  const ExperimentalMaleMarker: string := "男"
  const YearOpen: char := '第'
  const YearClose: char := '年'

  /** The text the loaders write into the Group_Type and Gender columns. */
  function GroupName(g: Group): string {
    match g
    case Experimental => "Experimental"
    case Control => "Control"
  }

  function GenderName(g: Gender): string {
    match g
    case Male => "Male"
    case Female => "Female"
  }

  /**
   * The regular expression `第(\d+)年` matches at position i with a group of k ASCII digits.
   * This is the definition of a match, independent of how the parser scans for one.
   */
  ghost predicate TokenAt(s: string, i: int, k: int) {
    && 0 <= i && 1 <= k && i + k + 1 < |s|
    && s[i] == YearOpen && AllDigits(s[i + 1..i + k + 1]) && s[i + k + 1] == YearClose
  }

  ghost predicate HasYearToken(s: string) {
    exists i, k :: TokenAt(s, i, k)
  }

  /** The match that `re.search` reports: no match starts further left. */
  ghost predicate LeftmostToken(s: string, i: int, k: int) {
    TokenAt(s, i, k) && forall j, m :: 0 <= j < i ==> !TokenAt(s, j, m)
  }

  /** A match at i can only use the whole digit run: backtracking would leave a digit before `年`. */
  lemma TokenUsesWholeRun(s: string, i: int, k: int)
    requires TokenAt(s, i, k)
    ensures k == DigitRun(s, i + 1)
  {
    var run := DigitRun(s, i + 1);
  }

  /** The match starting exactly at i, if any, as the value of its digit group. */
  function MatchAt(s: string, i: nat): (r: Option<nat>)
    requires i < |s|
    ensures r.None? <==> forall k :: !TokenAt(s, i, k)
    ensures forall k :: TokenAt(s, i, k) ==> r == Some(Value(s[i + 1..i + k + 1]))
  {
    if s[i] != YearOpen then None
    else
      var k := DigitRun(s, i + 1);
      if 1 <= k && i + k + 1 < |s| && s[i + k + 1] == YearClose then
        assert TokenAt(s, i, k);
        Some(Value(s[i + 1..i + k + 1]))
      else
        assert forall m :: TokenAt(s, i, m) ==> m == k by {
          forall m | TokenAt(s, i, m) ensures m == k { TokenUsesWholeRun(s, i, m); }
        }
        None
  }

  /** `re.search(r'第(\d+)年', s[from..])`: scan left to right for the first match. */
  function FindYear(s: string, from: nat): (r: Option<nat>)
    requires from <= |s|
    ensures r.None? <==> forall i, k :: from <= i ==> !TokenAt(s, i, k)
    decreases |s| - from
  {
    if from == |s| then None
    else match MatchAt(s, from)
      case Some(v) => Some(v)
      case None => FindYear(s, from + 1)
  }

  /** The scan reports the leftmost match: its digit group, read as a decimal number. */
  lemma {:induction false} FindYearLeftmost(s: string, from: nat, i: nat, k: nat)
    requires from <= i && TokenAt(s, i, k)
    requires forall j, m :: from <= j < i ==> !TokenAt(s, j, m)
    ensures FindYear(s, from) == Some(Value(s[i + 1..i + k + 1]))
    decreases i - from
  {
    if MatchAt(s, from).None? {
      assert from != i;
      FindYearLeftmost(s, from + 1, i, k);
    } else {
      assert !(forall m :: !TokenAt(s, from, m));
      assert from == i;
    }
  }

  /** Group and gender from the name (task1_code1.py:31-36): the gender marker depends on the group. */
  function Classify(name: string): (Group, Gender) {
    if Contains(name, ControlMarker) then
      (Control, if Contains(name, ControlMaleMarker) then Male else Female)
    else
      (Experimental, if Contains(name, ExperimentalMaleMarker) then Male else Female)
  }

  /** The whole filename rule; `None` is the AttributeError of `re.search(...).group(1)` on no match. */
  function Parse(name: string): (r: Option<Meta>)
    ensures r.None? <==> !HasYearToken(name)
    ensures forall i, k :: LeftmostToken(name, i, k) ==> r.Some? && r.value.year == Value(name[i + 1..i + k + 1])
    ensures r.Some? ==> (r.value.group == Control <==> Contains(name, ControlMarker))
    ensures r.Some? && r.value.group == Control ==> (r.value.gender == Male <==> Contains(name, ControlMaleMarker))
    ensures r.Some? && r.value.group == Experimental ==> (r.value.gender == Male <==> Contains(name, ExperimentalMaleMarker))
  {
    assert forall i, k :: LeftmostToken(name, i, k) ==> FindYear(name, 0) == Some(Value(name[i + 1..i + k + 1])) by {
      forall i, k | LeftmostToken(name, i, k) ensures FindYear(name, 0) == Some(Value(name[i + 1..i + k + 1])) {
        FindYearLeftmost(name, 0, i, k);
      }
    }
    match FindYear(name, 0)
    case None => None
    case Some(y) => Some(Meta(Classify(name).0, Classify(name).1, y))
  }

  /** The names task3_code1.py and task3_code2.py build: `男_实验组_第{y}年.csv` and `女_实验组_第{y}年.csv`. */
  function ExperimentalFileName(gender: Gender, year: nat): string {
    ExperimentalHead(gender) + Show(year) + "年.csv"
  }

  function ExperimentalHead(gender: Gender): (h: string)
    ensures |h| == 7 && h[6] == YearOpen
  {
    (if gender == Male then "男" else "女") + "_实验组_第"
  }

  /** A constructed name holds no control marker, and holds `男` exactly when it is a male file. */
  lemma ExperimentalNameMarkers(gender: Gender, year: nat)
    ensures !Contains(ExperimentalFileName(gender, year), ControlMarker)
    ensures Contains(ExperimentalFileName(gender, year), ExperimentalMaleMarker) <==> gender == Male
  {
    var head := ExperimentalHead(gender);
    var d := Show(year);
    var tail: string := "年.csv";
    var name := ExperimentalFileName(gender, year);
    assert forall c :: c in d ==> IsDigit(c);
    assert forall c :: c in name <==> c in head || c in d || c in tail;
    assert '对' !in head && '对' !in tail;
    NotContainedWithoutHead(name, ControlMarker);
    if gender == Male {
      assert name[0..1] == ExperimentalMaleMarker;
      assert OccursAt(name, ExperimentalMaleMarker, 0);
    } else {
      assert '男' !in head && '男' !in tail;
      NotContainedWithoutHead(name, ExperimentalMaleMarker);
    }
  }

  /** The leftmost year token of a constructed name starts after the 6-character prefix and spans `str(year)`. */
  lemma ExperimentalNameToken(gender: Gender, year: nat)
    ensures var name := ExperimentalFileName(gender, year);
            LeftmostToken(name, 6, |Show(year)|) && name[7..7 + |Show(year)|] == Show(year)
  {
    var head := ExperimentalHead(gender);
    var d := Show(year);
    var name := ExperimentalFileName(gender, year);
    var k := |d|;
    assert name[7..7 + k] == d;
    assert name[7 + k] == '年';
    assert TokenAt(name, 6, k);
    forall j, m | 0 <= j < 6 ensures !TokenAt(name, j, m) {
      assert name[j] == head[j];
      assert head[j] != YearOpen by {
        assert head[..6] == (if gender == Male then "男" else "女") + "_实验组_";
        assert head[j] == head[..6][j];
      }
    }
  }

  /** The constructed names parse back, under the shared rule, to exactly the group, gender and year they were built from. */
  lemma ExperimentalFileNameRoundTrip(gender: Gender, year: nat)
    ensures Parse(ExperimentalFileName(gender, year)) == Some(Meta(Experimental, gender, year))
  {
    ExperimentalNameMarkers(gender, year);
    ExperimentalNameToken(gender, year);
    ValueShow(year);
  }

  /** A name with no marker at all still parses (Experimental, Female) as long as the year token is there. */
  lemma NoMarkerDefaults(name: string)
    requires HasYearToken(name)
    requires !Contains(name, ControlMarker) && !Contains(name, ExperimentalMaleMarker)
    ensures Parse(name).Some? && Parse(name).value.group == Experimental && Parse(name).value.gender == Female
  {
  }

  /** For a control file the Experimental marker `男` is never consulted: "男_对照组_第0年.csv" is Control/Female. */
  lemma ControlIgnoresExperimentalMarker()
    ensures Parse("男_对照组_第0年.csv") == Some(Meta(Control, Female, 0))
  {
    var name: string := "男_对照组_第0年.csv";
    assert OccursAt(name, ControlMarker, 2);
    assert 'S' !in name;
    NotContainedWithoutHead(name, ControlMaleMarker);
    assert TokenAt(name, 6, 1);
    forall j, m | 0 <= j < 6 ensures !TokenAt(name, j, m) {
      assert name[j] != '第';
    }
    assert LeftmostToken(name, 6, 1);
    assert name[7..8] == "0";
  }
}
