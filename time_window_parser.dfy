/**
 * `TimeWindowParser`: turns a relative time token ("today", "last week", ...) into a
 * closed interval of instants around a fixed `now`. Instants are integers; the
 * calendar (where a day, week, month or year begins and ends, and what one period
 * earlier is) is a parameter that only has to respect the ordering of time.
 */
module TimeWindowParser {
  import opened Wrappers

  datatype Period = Day | Week | Month | Year

  /**
   * ActiveSupport's calendar arithmetic: `beginning_of_<period>`, `end_of_<period>` and
   * `t - 1.<period>`.
   */
  datatype Calendar = Calendar(
    beginningOf: (Period, int) -> int,
    endOf: (Period, int) -> int,
    ago: (Period, int) -> int)
  {
    /**
     * The ordering facts every calendar meets: an instant lies in its own period; one
     * period earlier lies before the current period starts; and an instant before the
     * current period starts belongs to a period that ends before it starts.
     */
    ghost predicate Valid() {
      && (forall p, t :: beginningOf(p, t) <= t <= endOf(p, t))
      && (forall p, t :: ago(p, t) < beginningOf(p, t))
      && (forall p, s, t :: s < beginningOf(p, t) ==> endOf(p, s) < beginningOf(p, t))
    }
  }

  /** A Ruby `first..last` range of instants (both ends included). */
  datatype Interval = Interval(first: int, last: int) {
    predicate Contains(t: int) {
      first <= t <= last
    }
  }

  /** The characters `/[\s_\-]/` matches (Ruby's `\s` is ASCII whitespace only). */
  predicate Removed(c: char) {
    c == ' ' || '\t' <= c <= '\r' || c == '_' || c == '-'
  }

  predicate IsUpper(c: char) {
    'A' <= c <= 'Z' || c == '\U{212A}'
  }

  /**
   * `downcase` on one character: ASCII capitals, and the KELVIN SIGN, which lowercases
   * to the ASCII `k`. Other characters are kept (no other lowercase mapping can turn a
   * character into ASCII).
   */
  function DowncaseChar(c: char): (d: char)
    ensures !IsUpper(d)
    ensures Removed(d) <==> Removed(c)
    ensures !IsUpper(c) ==> d == c
  {
    if 'A' <= c <= 'Z' then (c as int + 32) as char
    else if c == '\U{212A}' then 'k'
    else c
  }

  /**
   * `string.downcase.gsub(/[\s_\-]/, "")`: the result is no longer than the token and
   * holds no separator and no capital.
   */
  function NormalizeText(s: string): (t: string)
    ensures |t| <= |s|
    ensures forall i :: 0 <= i < |t| ==> !Removed(t[i]) && !IsUpper(t[i])
    decreases |s|
  {
    if s == [] then []
    else
      var rest := NormalizeText(s[1..]);
      if Removed(s[0]) then rest else [DowncaseChar(s[0])] + rest
  }

  /** `normalize`: nil stays nil. */
  function Normalize(token: Option<string>): (r: Option<string>)
    ensures r.Some? <==> token.Some?
  {
    match token
    case None => None
    case Some(s) => Some(NormalizeText(s))
  }

  /** The interval of the `p` containing `t`. */
  function Current(cal: Calendar, p: Period, t: int): Interval {
    Interval(cal.beginningOf(p, t), cal.endOf(p, t))
  }

  /** The interval of the `p` containing one `p` before `t`. */
  function Previous(cal: Calendar, p: Period, t: int): Interval {
    Current(cal, p, cal.ago(p, t))
  }

  /**
   * The interval a normalized token names: "today" and "this<period>" the period
   * containing `now`, "yesterday" and "last<period>" the one before it, and nil for
   * any value outside the eight.
   */
  function Window(v: string, now: int, cal: Calendar): (r: Option<Interval>)
    ensures r.Some? <==> v in Values()
    ensures forall p :: v == ThisToken(p) ==> r == Some(Current(cal, p, now))
    ensures forall p :: v == LastToken(p) ==> r == Some(Previous(cal, p, now))
  {
    assert Values() == ["today", "yesterday", "thisweek", "thismonth", "thisyear", "lastweek", "lastmonth", "lastyear"];
    if v == "today" then Some(Current(cal, Day, now))
    else if v == "yesterday" then Some(Previous(cal, Day, now))
    else if v == "thisweek" then Some(Current(cal, Week, now))
    else if v == "thismonth" then Some(Current(cal, Month, now))
    else if v == "thisyear" then Some(Current(cal, Year, now))
    else if v == "lastweek" then Some(Previous(cal, Week, now))
    else if v == "lastmonth" then Some(Previous(cal, Month, now))
    else if v == "lastyear" then Some(Previous(cal, Year, now))
    else None
  }

  /** `parse`: the `case` over the normalized token. */
  function Parse(token: Option<string>, now: int, cal: Calendar): (r: Option<Interval>)
    ensures token.None? ==> r.None?
    ensures token.Some? ==> r == Window(Normalize(token).value, now, cal)
  {
    match Normalize(token)
    case None => None
    case Some(v) => Window(v, now, cal)
  }

  /** A token already in lowercase letters parses to the window of its own text. */
  lemma ParseLowercase(v: string, now: int, cal: Calendar)
    requires Lowercase(v)
    ensures Normalize(Some(v)) == Some(v)
    ensures Parse(Some(v), now, cal) == Window(v, now, cal)
  {
    NormalizeTextFixed(v);
  }

  /** `HUMAN_NAMES_BY_VALUE`, in declaration order. */
  const HumanNames: seq<(string, string)> := [
    ("today", "Today"),
    ("yesterday", "Yesterday"),
    ("thisweek", "This week"),
    ("thismonth", "This month"),
    ("thisyear", "This year"),
    ("lastweek", "Last week"),
    ("lastmonth", "Last month"),
    ("lastyear", "Last year")
  ]

  /** `VALUES`: the keys of the table, in the order they are declared. */
  function Values(): (vs: seq<string>)
    ensures |vs| == |HumanNames|
    ensures forall i :: 0 <= i < |vs| ==> vs[i] == HumanNames[i].0
  {
    seq(|HumanNames|, i requires 0 <= i < |HumanNames| => HumanNames[i].0)
  }

  /** The label of the first entry of `table` whose value is `v`. */
  function Lookup(table: seq<(string, string)>, v: string): (r: Option<string>)
    ensures r.Some? <==> exists i :: 0 <= i < |table| && table[i].0 == v
    ensures r.Some? ==> exists i :: 0 <= i < |table| && table[i] == (v, r.value)
  {
    if table == [] then None
    else if table[0].0 == v then Some(table[0].1)
    else
      var r := Lookup(table[1..], v);
      assert forall i :: 0 < i < |table| ==> table[i] == table[1..][i - 1];
      r
  }

  /** `human_name_for`: a label exactly for the eight values. */
  function HumanNameFor(v: string): (r: Option<string>)
    ensures r.Some? <==> v in Values()
  {
    var vs := Values();
    assert v in vs ==> exists i :: 0 <= i < |vs| && HumanNames[i].0 == v;
    Lookup(HumanNames, v)
  }

  /** The eight values are pairwise distinct. */
  lemma ValuesDistinct()
    ensures forall i, j :: 0 <= i < j < |Values()| ==> Values()[i] != Values()[j]
  {
  }

  /** In a table with distinct values, a value present at `i` looks up the label declared next to it. */
  lemma {:induction false} LookupAt(table: seq<(string, string)>, i: int)
    requires 0 <= i < |table|
    requires forall j, k :: 0 <= j < k < |table| ==> table[j].0 != table[k].0
    ensures Lookup(table, table[i].0) == Some(table[i].1)
    decreases |table|
  {
    if i > 0 {
      assert table[0].0 != table[i].0;
      assert table[1..][i - 1] == table[i];
      LookupAt(table[1..], i - 1);
    }
  }

  /** Each value's label is the one declared next to it. */
  lemma HumanNameForValue(i: int)
    requires 0 <= i < |HumanNames|
    ensures HumanNameFor(Values()[i]) == Some(HumanNames[i].1)
  {
    ValuesDistinct();
    LookupAt(HumanNames, i);
  }

  /** Normalizing commutes with concatenation. */
  lemma {:induction false} NormalizeConcat(a: string, b: string)
    ensures NormalizeText(a + b) == NormalizeText(a) + NormalizeText(b)
    decreases |a|
  {
    if a != [] {
      assert (a + b)[0] == a[0];
      assert (a + b)[1..] == a[1..] + b;
      NormalizeConcat(a[1..], b);
      if !Removed(a[0]) {
        var d := [DowncaseChar(a[0])];
        assert d + (NormalizeText(a[1..]) + NormalizeText(b)) == (d + NormalizeText(a[1..])) + NormalizeText(b);
      }
    } else {
      assert a + b == b;
    }
  }

  /** Text with no separator and no capital is left as it is. */
  lemma {:induction false} NormalizeTextFixed(s: string)
    requires forall i :: 0 <= i < |s| ==> !Removed(s[i]) && !IsUpper(s[i])
    ensures NormalizeText(s) == s
    decreases |s|
  {
    if s != [] {
      NormalizeTextFixed(s[1..]);
      assert [s[0]] + s[1..] == s;
    }
  }

  /** Normalized text is its own normalization. */
  lemma {:induction false} NormalizeTextIdempotent(s: string)
    ensures NormalizeText(NormalizeText(s)) == NormalizeText(s)
    decreases |s|
  {
    if s != [] {
      NormalizeTextIdempotent(s[1..]);
      var rest := NormalizeText(s[1..]);
      if !Removed(s[0]) {
        var d := DowncaseChar(s[0]);
        assert ([d] + rest)[1..] == rest;
        assert DowncaseChar(d) == d;
      }
    }
  }

  /** `normalize` is idempotent, and nil stays nil. */
  lemma NormalizeIdempotent(token: Option<string>)
    ensures Normalize(Normalize(token)) == Normalize(token)
    ensures token.None? ==> Normalize(token).None?
  {
    if token.Some? {
      NormalizeTextIdempotent(token.value);
    }
  }

  /** A separator anywhere in a token changes nothing: removing one gives the same normalization. */
  lemma SeparatorIgnored(a: string, c: char, b: string)
    requires Removed(c)
    ensures NormalizeText(a + [c] + b) == NormalizeText(a + b)
  {
    NormalizeConcat(a + [c], b);
    NormalizeConcat(a, [c]);
    NormalizeConcat(a, b);
    assert NormalizeText([c]) == [];
  }

  /** Any token normalizing to "thisweek" parses to the current week. */
  lemma ParsesAsThisWeek(token: string, now: int, cal: Calendar)
    requires NormalizeText(token) == ThisToken(Week)
    ensures Parse(Some(token), now, cal) == Some(Current(cal, Week, now))
  {
  }

  /** A capitalized word normalizes to its lowercase spelling. */
  lemma NormalizeCapitalized(w: string)
    requires |w| > 0 && 'A' <= w[0] <= 'Z' && Lowercase(w[1..])
    ensures NormalizeText(w) == [w[0] + (32 as char)] + w[1..]
  {
    NormalizeTextFixed(w[1..]);
  }

  /** "ThisWeek" parses as the current week. */
  lemma CapitalizedThisWeek(now: int, cal: Calendar)
    ensures Parse(Some("ThisWeek"), now, cal) == Some(Current(cal, Week, now))
  {
    ThisWeekLowered();
    ParsesAsThisWeek("ThisWeek", now, cal);
  }

  lemma ThisWeekLowered()
    ensures NormalizeText("ThisWeek") == ThisToken(Week)
  {
    ThisLowered();
    WeekLowered();
    NormalizeConcat("This", "Week");
    assert "This" + "Week" == "ThisWeek";
    assert "this" + "week" == ThisToken(Week);
  }

  lemma ThisLowered()
    ensures NormalizeText("This") == "this"
  {
    NormalizeCapitalized("This");
    assert ['T' + (32 as char)] + "his" == "this";
  }

  lemma WeekLowered()
    ensures NormalizeText("Week") == "week"
  {
    NormalizeCapitalized("Week");
    assert ['W' + (32 as char)] + "eek" == "week";
  }

  /** "this", any separator ("this_week", "this-week", "this week", ...), "week" parses as the current week. */
  lemma SeparatedThisWeek(c: char, now: int, cal: Calendar)
    requires Removed(c)
    ensures Parse(Some("this" + [c] + "week"), now, cal) == Some(Current(cal, Week, now))
  {
    TokensLowercase(Week);
    NormalizeTextFixed(ThisToken(Week));
    assert "this" + "week" == ThisToken(Week);
    SeparatorIgnored("this", c, "week");
    ParsesAsThisWeek("this" + [c] + "week", now, cal);
  }

  /** A token parses exactly when its normalization is one of the eight values; otherwise the result is nil. */
  lemma ParseDefinedIff(token: Option<string>, now: int, cal: Calendar)
    ensures Parse(token, now, cal).Some? <==> token.Some? && Normalize(token).value in Values()
  {
  }

  /** Under a valid calendar every parsed interval starts at or before its end. */
  lemma ParsedOrdered(token: Option<string>, now: int, cal: Calendar)
    requires cal.Valid()
    requires Parse(token, now, cal).Some?
    ensures Parse(token, now, cal).value.first <= Parse(token, now, cal).value.last
  {
  }

  /** The token naming the current `p`: "today", "thisweek", "thismonth", "thisyear". */
  function ThisToken(p: Period): string {
    match p
    case Day => "today"
    case Week => "thisweek"
    case Month => "thismonth"
    case Year => "thisyear"
  }

  /** The token naming the previous `p`: "yesterday", "lastweek", "lastmonth", "lastyear". */
  function LastToken(p: Period): string {
    match p
    case Day => "yesterday"
    case Week => "lastweek"
    case Month => "lastmonth"
    case Year => "lastyear"
  }

  predicate Lowercase(v: string) {
    forall i :: 0 <= i < |v| ==> 'a' <= v[i] <= 'z'
  }

  lemma TokensLowercase(p: Period)
    ensures Lowercase(ThisToken(p)) && Lowercase(LastToken(p))
  {
  }

  /** Each "this" token names the period containing `now`. */
  lemma ParseThis(p: Period, now: int, cal: Calendar)
    ensures Parse(Some(ThisToken(p)), now, cal) == Some(Current(cal, p, now))
  {
    TokensLowercase(p);
    ParseLowercase(ThisToken(p), now, cal);
  }

  /** Each "last" token names the period containing one period before `now`. */
  lemma ParseLast(p: Period, now: int, cal: Calendar)
    ensures Parse(Some(LastToken(p)), now, cal) == Some(Previous(cal, p, now))
  {
    TokensLowercase(p);
    ParseLowercase(LastToken(p), now, cal);
  }

  /** The "today", "thisweek", "thismonth" and "thisyear" intervals contain `now`. */
  lemma CurrentContainsNow(p: Period, now: int, cal: Calendar)
    requires cal.Valid()
    ensures Parse(Some(ThisToken(p)), now, cal).Some?
    ensures Parse(Some(ThisToken(p)), now, cal).value.Contains(now)
  {
    ParseThis(p, now, cal);
  }

  /** The "yesterday" and "last ..." intervals end before the matching current interval begins. */
  lemma LastBeforeThis(p: Period, now: int, cal: Calendar)
    requires cal.Valid()
    ensures Parse(Some(LastToken(p)), now, cal).Some? && Parse(Some(ThisToken(p)), now, cal).Some?
    ensures Parse(Some(LastToken(p)), now, cal).value.last < Parse(Some(ThisToken(p)), now, cal).value.first
  {
    ParseThis(p, now, cal);
    ParseLast(p, now, cal);
  }

  /** Period lengths of a calendar whose periods all have a fixed length. */
  function Length(p: Period): int {
    match p
    case Day => 86400
    case Week => 7 * 86400
    case Month => 30 * 86400
    case Year => 365 * 86400
  }

  /** A calendar of fixed-length periods aligned at instant 0. */
  function Uniform(): Calendar {
    Calendar(
      (p, t) => (t / Length(p)) * Length(p),
      (p, t) => (t / Length(p)) * Length(p) + Length(p) - 1,
      (p, t) => t - Length(p))
  }

  lemma FloorMultiple(t: int, l: int)
    requires l > 0
    ensures (t / l) * l <= t < (t / l) * l + l
  {
  }

  lemma FloorMonotone(s: int, t: int, l: int)
    requires l > 0 && s < (t / l) * l
    ensures (s / l) * l + l <= (t / l) * l
  {
    FloorMultiple(s, l);
    var x, y := s / l, t / l;
    if y <= x {
      MulMonotone(y, x, l);
      assert false;
    }
    MulMonotone(x + 1, y, l);
  }

  lemma MulMonotone(a: int, b: int, l: int)
    requires l > 0 && a <= b
    ensures a * l <= b * l
  {
    var d := b - a;
    assert b * l == a * l + d * l;
  }

  /** The ordering facts are consistent: a fixed-length calendar meets them. */
  lemma UniformValid()
    ensures Uniform().Valid()
  {
    var cal := Uniform();
    forall p, t ensures cal.beginningOf(p, t) <= t <= cal.endOf(p, t) {
      FloorMultiple(t, Length(p));
    }
    forall p, t ensures cal.ago(p, t) < cal.beginningOf(p, t) {
      FloorMultiple(t, Length(p));
    }
    forall p, s, t | s < cal.beginningOf(p, t) ensures cal.endOf(p, s) < cal.beginningOf(p, t) {
      FloorMonotone(s, t, Length(p));
    }
  }
}
