/**
 * Spell lookup: the choice of one spell name among the rows a substring
 * search returned, and the reply text built from a spell's database fields.
 */
module Spells {
  import opened Wrappers
  import opened Text

  // ---------------------------------------------------------------------
  // The closest-name loop

  /** The three-valued comparison of a row name with the query, both
      lower-cased. */
  function Cmp(row: string, query: string): (c: int)
    ensures -1 <= c <= 1
    ensures c == 0 <==> EqualFold(row, query)
  {
    Compare(ToLower(row), ToLower(query))
  }

  /** The lowest index below `hi` whose row compares as `v` with the query. */
  function FirstCmp(rows: seq<string>, query: string, v: int, hi: nat): (r: Option<nat>)
    requires hi <= |rows|
    ensures r.Some? ==>
      && r.value < hi && Cmp(rows[r.value], query) == v
      && forall j :: 0 <= j < r.value ==> Cmp(rows[j], query) != v
    ensures r.None? <==> forall j :: 0 <= j < hi ==> Cmp(rows[j], query) != v
  {
    if hi == 0 then None
    else match FirstCmp(rows, query, v, hi - 1)
      case Some(k) => Some(k)
      case None => if Cmp(rows[hi - 1], query) == v then Some(hi - 1) else None
  }

  /** The name held after scanning `rows[..hi]` without an exact match: the
      first row that compares greater than the query, else the first row
      (adopted because any comparison beats the initial closeness -2), else
      nothing. */
  function Incumbent(rows: seq<string>, query: string, hi: nat): string
    requires hi <= |rows|
  {
    if hi == 0 then ""
    else match FirstCmp(rows, query, 1, hi)
      case Some(k) => rows[k]
      case None => rows[0]
  }

  /** The spell name chosen among the rows: the first row equal to the query
      ignoring case, otherwise the incumbent after the whole scan. */
  function ClosestName(rows: seq<string>, query: string): string {
    match FirstCmp(rows, query, 0, |rows|)
    case Some(k) => rows[k]
    case None => Incumbent(rows, query, |rows|)
  }

  /** The scan of the substring-search rows: an exact match is adopted and
      ends the scan; otherwise a row is adopted when it compares strictly
      greater than the best comparison so far. */
  method ClosestSpellName(rows: seq<string>, query: string) returns (closeName: string)
    ensures closeName == ClosestName(rows, query)
  {
    var closeness := -2;
    closeName := "";
    var i := 0;
    while i < |rows|
      invariant 0 <= i <= |rows|
      invariant FirstCmp(rows, query, 0, i).None?
      invariant closeName == Incumbent(rows, query, i)
      invariant i == 0 ==> closeness == -2
      invariant i > 0 ==> closeness == if FirstCmp(rows, query, 1, i).Some? then 1 else -1
    {
      var compVal := Compare(ToLower(rows[i]), ToLower(query));
      if compVal == 0 {
        closeName := rows[i];
        break;
      }
      if compVal > closeness {
        closeName := rows[i];
        closeness := compVal;
      }
      i := i + 1;
    }
  }

  /** The first row equal to the query ignoring case is chosen, whatever
      rows come before it. */
  lemma ExactRowChosen(rows: seq<string>, query: string, k: nat)
    requires k < |rows| && EqualFold(rows[k], query)
    requires forall j :: 0 <= j < k ==> !EqualFold(rows[j], query)
    ensures ClosestName(rows, query) == rows[k]
  {
    assert Cmp(rows[k], query) == 0;
    var f := FirstCmp(rows, query, 0, |rows|);
    assert f.Some? && f.value == k;
  }

  /** Without an exact row, the first row that sorts (ignoring case) strictly
      after the query is chosen. */
  lemma GreaterRowChosen(rows: seq<string>, query: string, k: nat)
    requires forall j :: 0 <= j < |rows| ==> !EqualFold(rows[j], query)
    requires k < |rows| && LexLess(ToLower(query), ToLower(rows[k]))
    requires forall j :: 0 <= j < k ==> !LexLess(ToLower(query), ToLower(rows[j]))
    ensures ClosestName(rows, query) == rows[k]
  {
    forall j | 0 <= j < |rows|
      ensures Cmp(rows[j], query) == 1 <==> LexLess(ToLower(query), ToLower(rows[j]))
    {
      CompareGreater(ToLower(rows[j]), ToLower(query));
    }
    assert FirstCmp(rows, query, 0, |rows|).None?;
    var f := FirstCmp(rows, query, 1, |rows|);
    assert f.Some? && f.value == k;
  }

  /** When no row equals the query and none sorts after it, the first row is
      chosen; with no rows at all the choice is empty. */
  lemma FirstRowChosen(rows: seq<string>, query: string)
    requires forall j :: 0 <= j < |rows| ==> !EqualFold(rows[j], query)
    requires forall j :: 0 <= j < |rows| ==> !LexLess(ToLower(query), ToLower(rows[j]))
    ensures ClosestName(rows, query) == if rows == [] then "" else rows[0]
  {
    forall j | 0 <= j < |rows| ensures Cmp(rows[j], query) != 1 {
      CompareGreater(ToLower(rows[j]), ToLower(query));
    }
    assert FirstCmp(rows, query, 0, |rows|).None?;
    assert FirstCmp(rows, query, 1, |rows|).None?;
  }

  /** The chosen name is one of the rows, or empty when there are none. */
  lemma ClosestIsRow(rows: seq<string>, query: string)
    ensures rows == [] ==> ClosestName(rows, query) == ""
    ensures rows != [] ==> ClosestName(rows, query) in rows
  {
  }

  // ---------------------------------------------------------------------
  // The reply template

  /** The fields read for one spell: its name as cased in the database, its
      level, its school and its description. */
  datatype SpellRecord = SpellRecord(name: string, level: string, school: string, desc: string)

  /** The reply: the name in bold, the level and school in italics, and the
      description, each line quoted. */
  function FormatSpellText(r: SpellRecord): string {
    ">*" + r.name + "*\n>_Level " + r.level + " " + r.school + " Spell_\n" + ">" + r.desc
  }

  /** Fields whose text cannot be confused with the template around them. */
  predicate Separable(r: SpellRecord) {
    '*' !in r.name && ' ' !in r.level && '\n' !in r.school
  }

  /** The position of the first `c` in `s`, or `|s|` when there is none. */
  function IndexOf(s: string, c: char): (i: nat)
    ensures i <= |s| && c !in s[..i]
    ensures i < |s| ==> s[i] == c
  {
    if s == [] then 0
    else if s[0] == c then 0
    else
      var j := IndexOf(s[1..], c);
      assert s[..1 + j] == [s[0]] + s[1..][..j];
      1 + j
  }

  /** Splits `s` at its first `c` into the text before and the text after. */
  function SplitAt(s: string, c: char): (r: Option<(string, string)>)
    ensures r.Some? ==> c !in r.value.0 && s == r.value.0 + [c] + r.value.1
    ensures r.None? <==> c !in s
  {
    var i := IndexOf(s, c);
    if i == |s| then
      assert s[..i] == s;
      None
    else
      assert s == s[..i] + [c] + s[i + 1..];
      Some((s[..i], s[i + 1..]))
  }

  /** The split happens at the first `c`. */
  lemma SplitAtFirst(a: string, c: char, b: string)
    requires c !in a
    ensures SplitAt(a + [c] + b, c) == Some((a, b))
  {
    var s := a + [c] + b;
    var i := IndexOf(s, c);
    assert s[|a|] == c;
    assert s[..|a|] == a;
    assert s[i + 1..] == b;
  }

  /** Reads the fields back out of a reply, or `None` when the text does not
      follow the template. */
  function ParseSpellText(text: string): Option<SpellRecord> {
    if !HasPrefix(text, ">*") then None
    else
      match SplitAt(text[2..], '*')
      case None => None
      case Some((name, rest)) => ParseLevelLine(name, rest)
  }

  /** The text after the name: the end of the title line, then the level. */
  function ParseLevelLine(name: string, text: string): Option<SpellRecord> {
    if !HasPrefix(text, "\n>_Level ") then None
    else
      match SplitAt(text[9..], ' ')
      case None => None
      case Some((level, rest)) => ParseSchoolLine(name, level, rest)
  }

  /** The text after the level: the school, the end of its line, and the
      quoted description. */
  function ParseSchoolLine(name: string, level: string, text: string): Option<SpellRecord> {
    match SplitAt(text, '\n')
    case None => None
    case Some((line, rest)) =>
      if !HasSuffix(line, " Spell_") || !HasPrefix(rest, ">") then None
      else Some(SpellRecord(name, level, line[..|line| - 7], rest[1..]))
  }

  lemma ParseSchoolLineFormat(r: SpellRecord)
    requires '\n' !in r.school
    ensures ParseSchoolLine(r.name, r.level, r.school + " Spell_\n" + ">" + r.desc) == Some(r)
  {
    var line := r.school + " Spell_";
    var rest := ">" + r.desc;
    assert r.school + " Spell_\n" + ">" + r.desc == line + ['\n'] + rest;
    assert '\n' !in line;
    SplitAtFirst(line, '\n', rest);
    assert line[..|line| - 7] == r.school;
    assert line[|line| - 7..] == " Spell_";
    assert rest[..1] == ">";
    assert rest[1..] == r.desc;
  }

  lemma ConcatSplit(a: string, b: string)
    ensures HasPrefix(a + b, a) && (a + b)[|a|..] == b
  {
    assert (a + b)[..|a|] == a;
  }

  lemma ParseLevelLineOf(name: string, level: string, rest: string)
    requires ' ' !in level
    ensures ParseLevelLine(name, "\n>_Level " + (level + [' '] + rest)) == ParseSchoolLine(name, level, rest)
  {
    ConcatSplit("\n>_Level ", level + [' '] + rest);
    SplitAtFirst(level, ' ', rest);
  }

  lemma ParseSpellTextOf(name: string, rest: string)
    requires '*' !in name
    ensures ParseSpellText(">*" + (name + ['*'] + rest)) == ParseLevelLine(name, rest)
  {
    ConcatSplit(">*", name + ['*'] + rest);
    SplitAtFirst(name, '*', rest);
  }

  /** The template loses nothing: the fields can be read back from the reply. */
  lemma ParseFormat(r: SpellRecord)
    requires Separable(r)
    ensures ParseSpellText(FormatSpellText(r)) == Some(r)
  {
    var school := r.school + " Spell_\n" + ">" + r.desc;
    var level := "\n>_Level " + (r.level + [' '] + school);
    assert FormatSpellText(r) == ">*" + (r.name + ['*'] + level);
    ParseSpellTextOf(r.name, level);
    ParseLevelLineOf(r.name, r.level, school);
    ParseSchoolLineFormat(r);
  }

  /** Two separable records with the same reply are the same record. */
  lemma FormatInjective(r1: SpellRecord, r2: SpellRecord)
    requires Separable(r1) && Separable(r2)
    requires FormatSpellText(r1) == FormatSpellText(r2)
    ensures r1 == r2
  {
    ParseFormat(r1);
    ParseFormat(r2);
  }

  // ---------------------------------------------------------------------
  // The database reads behind the template

  /** The outcome of one SQL query: an error, or the rows it returned. */
  datatype Query<T> = QueryError | Rows(rows: seq<T>)

  /** The spell database as three queries: the name search, the main record
      (name, level, school) and the description of a spell by exact name. */
  datatype SpellDb = SpellDb(
    search: string -> Query<string>,
    main: string -> Query<(string, string, string)>,
    desc: string -> Query<string>)

  /** `rows.Next()` then `rows.Scan(...)`: the first row, or the variables'
      initial values when there is no row. */
  function FirstRow<T>(rows: seq<T>, none: T): (v: T)
    ensures rows == [] ==> v == none
    ensures rows != [] ==> v == rows[0]
  {
    if rows == [] then none else rows[0]
  }

  /** The formatted reply for a spell name: empty when either query fails,
      otherwise the template filled with the first row of each query (empty
      fields where a query returned no row). */
  function FormatDnDSpellText(name: string, db: SpellDb): (text: string)
    ensures db.main(name).QueryError? || db.desc(name).QueryError? ==> text == ""
    ensures db.main(name).Rows? && db.desc(name).Rows? ==>
      var (n, l, s) := FirstRow(db.main(name).rows, ("", "", ""));
      text == FormatSpellText(SpellRecord(n, l, s, FirstRow(db.desc(name).rows, "")))
  {
    match db.main(name)
    case QueryError => ""
    case Rows(mainRows) =>
      var (casedName, level, school) := FirstRow(mainRows, ("", "", ""));
      match db.desc(name)
      case QueryError => ""
      case Rows(descRows) => FormatSpellText(SpellRecord(casedName, level, school, FirstRow(descRows, "")))
  }

  /** When both queries succeed, the reply carries the spell's fields: from
      separable first rows, the parser reads back the name, level and school of
      the main row and the description row (empty fields for a missing row). */
  lemma SpellReplyReadsBack(name: string, db: SpellDb)
    requires db.main(name).Rows? && db.desc(name).Rows?
    requires var (n, l, s) := FirstRow(db.main(name).rows, ("", "", ""));
      Separable(SpellRecord(n, l, s, FirstRow(db.desc(name).rows, "")))
    ensures var (n, l, s) := FirstRow(db.main(name).rows, ("", "", ""));
      ParseSpellText(FormatDnDSpellText(name, db)) == Some(SpellRecord(n, l, s, FirstRow(db.desc(name).rows, "")))
  {
    var (n, l, s) := FirstRow(db.main(name).rows, ("", "", ""));
    ParseFormat(SpellRecord(n, l, s, FirstRow(db.desc(name).rows, "")));
  }

  /** A reply is never empty when both queries succeed, so an empty reply
      means a query failed. */
  lemma ReplyNonEmpty(name: string, db: SpellDb)
    ensures FormatDnDSpellText(name, db) == "" <==> db.main(name).QueryError? || db.desc(name).QueryError?
  {
    if db.main(name).Rows? && db.desc(name).Rows? {
      var text := FormatDnDSpellText(name, db);
      assert text[0] == '>';
    }
  }
}
