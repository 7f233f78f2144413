/**
 * The getarg test cases, each stated for every flag name, both dash spellings
 * and every default, over the table ResetArgs builds.
 */
module GetArgTests {
  import opened Options
  import opened Text
  import opened Decimal
  import opened Parsing
  import opened Lookup
  import opened Args

  /** A flag name as written after its dash: non-empty, no dash first, no '=', no whitespace. */
  predicate IsFlagBase(f: string) {
    f != [] && f[0] != '-' && NoEq(f) && NoSpace(f)
  }

  predicate IsLead(lead: string) {
    lead == "-" || lead == "--"
  }

  /** A command line of one token. */
  lemma OneToken(a: string)
    requires NoSpace(a)
    ensures ResetTable(a) == TableOf([a])
  {
    ProgramNameSkipped(a);
    SplitJoin([a]);
  }

  /** A command line of two tokens separated by one space. */
  lemma TwoTokens(a: string, b: string)
    requires NoSpace(a) && NoSpace(b)
    ensures ResetTable(a + " " + b) == TableOf([a, b])
  {
    assert Join([a, b]) == a + " " + b by {
      assert [a, b][1..] == [b];
    }
    SplitJoin([a, b]);
    ProgramNameSkipped(a + " " + b);
  }

  /** The empty command line gives the empty table. */
  lemma EmptyTable()
    ensures ResetTable("") == map[]
  {
    OneToken("");
    assert EntryOf("").None?;
    assert [""][..0] == [];
  }

  /** A command line of one option token holds just that option. */
  lemma OneOptionTable(a: string)
    requires NoSpace(a) && EntryOf(a).Some?
    ensures ResetTable(a) == map[EntryOf(a).value.key := EntryOf(a).value.value]
  {
    OneToken(a);
    assert [a][..0] == [];
  }

  /** A command line of two option tokens holds both, the second overwriting on a shared key. */
  lemma TwoOptionsTable(a: string, b: string)
    requires NoSpace(a) && NoSpace(b) && EntryOf(a).Some? && EntryOf(b).Some?
    ensures ResetTable(a + " " + b) ==
            map[EntryOf(a).value.key := EntryOf(a).value.value][EntryOf(b).value.key := EntryOf(b).value.value]
  {
    TwoTokens(a, b);
    TableOfAppend([], a);
    assert [] + [a] == [a];
    TableOfAppend([a], b);
    assert [a] + [b] == [a, b];
  }

  /** "-f" alone: the table holds "-f" with the empty value. */
  lemma BareFlagTable(lead: string, f: string)
    requires IsLead(lead) && IsFlagBase(f)
    ensures ResetTable(lead + f) == map["-" + f := ""]
  {
    BareToken(lead, f);
    OneOptionTable(lead + f);
  }

  /** "-f=v" alone: the table holds "-f" with the value v. */
  lemma ValuedFlagTable(lead: string, f: string, v: string)
    requires IsLead(lead) && IsFlagBase(f) && NoSpace(v)
    ensures ResetTable(lead + f + "=" + v) == map["-" + f := v]
  {
    ValuedToken(lead, f, v);
    assert NoSpace(lead + f + "=" + v);
    OneOptionTable(lead + f + "=" + v);
  }

  /** The empty command line: every lookup gives its default. */
  lemma EmptyCommandLine(rd: Reading, name: string, b: bool, s: string, n: int)
    ensures GetBool(rd, ResetTable(""), name, b) == b
    ensures GetStr(ResetTable(""), name, s) == s
    ensures GetInt(rd, ResetTable(""), name, n) == n
  {
    EmptyTable();
  }

  /** A bare flag reads true, "" and 0, whatever the defaults. */
  lemma BareFlag(rd: Reading, lead: string, f: string, b: bool, s: string, n: int)
    requires Lawful(rd) && IsLead(lead) && IsFlagBase(f)
    ensures GetBool(rd, ResetTable(lead + f), "-" + f, b)
    ensures GetStr(ResetTable(lead + f), "-" + f, s) == ""
    ensures GetInt(rd, ResetTable(lead + f), "-" + f, n) == 0
  {
    BareFlagTable(lead, f);
    assert NoDigit("");
  }

  /** "-f=v" makes the string lookup return v verbatim, and the others read v, whatever the defaults. */
  lemma ValuedFlag(rd: Reading, lead: string, f: string, v: string, b: bool, s: string, n: int)
    requires IsLead(lead) && IsFlagBase(f) && NoSpace(v)
    ensures GetStr(ResetTable(lead + f + "=" + v), "-" + f, s) == v
    ensures GetBool(rd, ResetTable(lead + f + "=" + v), "-" + f, b) == Truth(rd, v)
    ensures GetInt(rd, ResetTable(lead + f + "=" + v), "-" + f, n) == rd.number(v)
  {
    ValuedFlagTable(lead, f, v);
  }

  /** "-f=" is an empty value, not the default. */
  lemma EmptyValue(lead: string, f: string, s: string)
    requires IsLead(lead) && IsFlagBase(f)
    ensures GetStr(ResetTable(lead + f + "="), "-" + f, s) == ""
  {
    ValuedFlagTable(lead, f, "");
    assert lead + f + "=" + "" == lead + f + "=";
  }

  /** "-f=0" reads false and "-f=1" true, whatever the default. */
  lemma ZeroAndOne(rd: Reading, lead: string, f: string, b: bool)
    requires Lawful(rd) && IsLead(lead) && IsFlagBase(f)
    ensures !GetBool(rd, ResetTable(lead + f + "=0"), "-" + f, b)
    ensures GetBool(rd, ResetTable(lead + f + "=1"), "-" + f, b)
  {
    var zero, one := lead + f + "=0", lead + f + "=1";
    assert zero == lead + f + "=" + "0" && one == lead + f + "=" + "1";
    ValuedFlagTable(lead, f, "0");
    ValuedFlagTable(lead, f, "1");
  }

  /** "-f=" followed by the decimal text of k reads k, whatever the default. */
  lemma NumberValue(rd: Reading, lead: string, f: string, k: nat, n: int)
    requires Lawful(rd) && IsLead(lead) && IsFlagBase(f)
    ensures GetInt(rd, ResetTable(lead + f + "=" + DigitsOf(k)), "-" + f, n) == k
  {
    DigitsRoundTrip(k);
    ValuedFlagTable(lead, f, DigitsOf(k));
  }

  /** A value with no digit ("NaN", "NotANumber") reads 0, not the default. */
  lemma NonNumericValue(rd: Reading, lead: string, f: string, v: string, n: int)
    requires Lawful(rd) && IsLead(lead) && IsFlagBase(f) && NoSpace(v) && NoDigit(v)
    ensures GetInt(rd, ResetTable(lead + f + "=" + v), "-" + f, n) == 0
  {
    ValuedFlagTable(lead, f, v);
  }

  /** Distinct flag names give distinct keys. */
  lemma DistinctKeys(f: string, g: string)
    requires f != g
    ensures "-" + f != "-" + g
  {
    assert f == ("-" + f)[1..] && g == ("-" + g)[1..];
  }

  /** An option token built from a flag name and a value holds no whitespace. */
  lemma ValuedNoSpace(lead: string, f: string, v: string)
    requires IsLead(lead) && IsFlagBase(f) && NoSpace(v)
    ensures NoSpace(lead + f + "=" + v)
  {
  }

  /** "-f=v -g=w" with distinct names: the table holds both values. */
  lemma TwoValuedTable(lf: string, f: string, v: string, lg: string, g: string, w: string)
    requires IsLead(lf) && IsLead(lg) && IsFlagBase(f) && IsFlagBase(g) && f != g && NoSpace(v) && NoSpace(w)
    ensures ResetTable((lf + f + "=" + v) + " " + (lg + g + "=" + w)) == map["-" + f := v, "-" + g := w]
  {
    ValuedToken(lf, f, v);
    ValuedToken(lg, g, w);
    ValuedNoSpace(lf, f, v);
    ValuedNoSpace(lg, g, w);
    TwoOptionsTable(lf + f + "=" + v, lg + g + "=" + w);
  }

  /** "-f -g": the table holds both with the empty value. */
  lemma TwoBareTable(lf: string, f: string, lg: string, g: string)
    requires IsLead(lf) && IsLead(lg) && IsFlagBase(f) && IsFlagBase(g)
    ensures ResetTable((lf + f) + " " + (lg + g)) == map["-" + f := "", "-" + g := ""]
  {
    BareToken(lf, f);
    BareToken(lg, g);
    TwoOptionsTable(lf + f, lg + g);
  }

  /** Two bare flags on one command line ("-lyc -bar"): each reads true, "" and 0, whatever the defaults. */
  lemma TwoBareFlags(rd: Reading, lf: string, f: string, lg: string, g: string, b: bool, s: string, n: int)
    requires Lawful(rd) && IsLead(lf) && IsLead(lg) && IsFlagBase(f) && IsFlagBase(g) && f != g
    ensures var t := ResetTable((lf + f) + " " + (lg + g));
            && GetBool(rd, t, "-" + f, b) && GetStr(t, "-" + f, s) == "" && GetInt(rd, t, "-" + f, n) == 0
            && GetBool(rd, t, "-" + g, b) && GetStr(t, "-" + g, s) == "" && GetInt(rd, t, "-" + g, n) == 0
  {
    TwoBareTable(lf, f, lg, g);
    DistinctKeys(f, g);
    assert NoDigit("");
  }

  /**
   * Two valued flags on one command line ("-lyc=11 -bar=12", "--lyc=verbose --bar=1"):
   * each is read from its own value alone, whatever the defaults.
   */
  lemma TwoValuedFlags(rd: Reading, lf: string, f: string, v: string, lg: string, g: string, w: string,
                       b: bool, s: string, n: int)
    requires IsLead(lf) && IsLead(lg) && IsFlagBase(f) && IsFlagBase(g) && f != g && NoSpace(v) && NoSpace(w)
    ensures var t := ResetTable((lf + f + "=" + v) + " " + (lg + g + "=" + w));
            && GetBool(rd, t, "-" + f, b) == Truth(rd, v) && GetStr(t, "-" + f, s) == v
            && GetInt(rd, t, "-" + f, n) == rd.number(v)
            && GetBool(rd, t, "-" + g, b) == Truth(rd, w) && GetStr(t, "-" + g, s) == w
            && GetInt(rd, t, "-" + g, n) == rd.number(w)
  {
    TwoValuedTable(lf, f, v, lg, g, w);
    DistinctKeys(f, g);
  }

  /** Two flags given digit strings on one command line ("-lyc=11 -bar=12") each read their own number. */
  lemma TwoNumbers(rd: Reading, lf: string, f: string, v: string, lg: string, g: string, w: string, m: int, n: int)
    requires Lawful(rd) && IsLead(lf) && IsLead(lg) && IsFlagBase(f) && IsFlagBase(g) && f != g
    requires IsDigits(v) && IsDigits(w)
    ensures var t := ResetTable((lf + f + "=" + v) + " " + (lg + g + "=" + w));
            GetInt(rd, t, "-" + f, m) == DigitsValue(v) && GetInt(rd, t, "-" + g, n) == DigitsValue(w)
  {
    assert NoSpace(v) && NoSpace(w);
    TwoValuedTable(lf, f, v, lg, g, w);
    DistinctKeys(f, g);
  }

  /** Two flags given text without digits ("-lyc=NaN -bar=NotANumber") each read 0, not the default. */
  lemma TwoNonNumbers(rd: Reading, lf: string, f: string, v: string, lg: string, g: string, w: string, m: int, n: int)
    requires Lawful(rd) && IsLead(lf) && IsLead(lg) && IsFlagBase(f) && IsFlagBase(g) && f != g
    requires NoSpace(v) && NoSpace(w) && NoDigit(v) && NoDigit(w)
    ensures var t := ResetTable((lf + f + "=" + v) + " " + (lg + g + "=" + w));
            GetInt(rd, t, "-" + f, m) == 0 && GetInt(rd, t, "-" + g, n) == 0
  {
    TwoValuedTable(lf, f, v, lg, g, w);
    DistinctKeys(f, g);
  }

  /**
   * Lookup is by exact name: with only "-f" given, any other name whose
   * negated form is not "-f" either ("-lyco", "-fo" beside "-lyc") is absent.
   */
  lemma ExactName(rd: Reading, lead: string, f: string, g: string, b: bool, s: string, n: int)
    requires IsLead(lead) && IsFlagBase(f)
    requires g != "-" + f && NegatedKey(g) != Some("-" + f)
    ensures GetBool(rd, ResetTable(lead + f), g, b) == b
    ensures GetStr(ResetTable(lead + f), g, s) == s
    ensures GetInt(rd, ResetTable(lead + f), g, n) == n
  {
    BareFlagTable(lead, f);
  }

  /** The negated key of "-f" is "-nof", which is never "-f" itself. */
  lemma NegatedKeyOfFlag(f: string)
    requires IsFlagBase(f)
    ensures NegatedKey("-" + f) == Some("-no" + f)
    ensures "-no" + f != "-" + f
  {
    assert ("-" + f)[1..] == f;
    assert |"-no" + f| != |"-" + f|;
  }

  /** "-nof" alone reads f as false, whatever the default. */
  lemma NegatedBare(rd: Reading, lead: string, f: string, b: bool)
    requires IsLead(lead) && IsFlagBase(f)
    ensures !GetBool(rd, ResetTable(lead + "no" + f), "-" + f, b)
  {
    var nf := "no" + f;
    assert IsFlagBase(nf);
    assert "-" + nf == "-no" + f;
    assert lead + "no" + f == lead + nf;
    BareFlagTable(lead, nf);
    NegatedKeyOfFlag(f);
  }

  /** "-nof=v" alone reads f as the inverse of v, whatever the default. */
  lemma NegatedValued(rd: Reading, lead: string, f: string, v: string, b: bool)
    requires IsLead(lead) && IsFlagBase(f) && NoSpace(v)
    ensures GetBool(rd, ResetTable(lead + "no" + f + "=" + v), "-" + f, b) == !Truth(rd, v)
  {
    var nf := "no" + f;
    assert IsFlagBase(nf);
    assert "-" + nf == "-no" + f;
    assert lead + "no" + f + "=" + v == lead + nf + "=" + v;
    ValuedFlagTable(lead, nf, v);
    NegatedKeyOfFlag(f);
  }

  /** "-nof=1" reads f as false, whatever the default. */
  lemma NegatedOne(rd: Reading, lead: string, f: string, b: bool)
    requires Lawful(rd) && IsLead(lead) && IsFlagBase(f)
    ensures !GetBool(rd, ResetTable(lead + "no" + f + "=1"), "-" + f, b)
  {
    NegatedValued(rd, lead, f, "1", b);
    assert lead + "no" + f + "=" + "1" == lead + "no" + f + "=1";
  }

  /** "-nof=0" reads f as true, whatever the default. */
  lemma NegatedZero(rd: Reading, lead: string, f: string, b: bool)
    requires Lawful(rd) && IsLead(lead) && IsFlagBase(f)
    ensures GetBool(rd, ResetTable(lead + "no" + f + "=0"), "-" + f, b)
  {
    NegatedValued(rd, lead, f, "0", b);
    assert lead + "no" + f + "=" + "0" == lead + "no" + f + "=0";
  }

  /** A positive token followed by a negated one: the positive value decides the boolean lookup. */
  lemma PositiveThenNegated(rd: Reading, a: string, b: string, f: string, d: bool)
    requires NoSpace(a) && NoSpace(b) && IsFlagBase(f)
    requires EntryOf(a).Some? && EntryOf(a).value.key == "-" + f
    requires EntryOf(b).Some? && EntryOf(b).value.key == "-no" + f
    ensures GetBool(rd, ResetTable(a + " " + b), "-" + f, d) == Truth(rd, EntryOf(a).value.value)
  {
    NegatedKeyOfFlag(f);
    TwoOptionsTable(a, b);
  }

  /**
   * One positive and one negated token, in either order: the positive token's
   * value decides the boolean lookup, whatever the default.
   */
  lemma PositiveBeatsNegated(rd: Reading, a: string, b: string, f: string, d: bool)
    requires NoSpace(a) && NoSpace(b) && IsFlagBase(f)
    requires EntryOf(a).Some? && EntryOf(a).value.key == "-" + f
    requires EntryOf(b).Some? && EntryOf(b).value.key == "-no" + f
    ensures GetBool(rd, ResetTable(a + " " + b), "-" + f, d) == Truth(rd, EntryOf(a).value.value)
    ensures GetBool(rd, ResetTable(b + " " + a), "-" + f, d) == Truth(rd, EntryOf(a).value.value)
  {
    PositiveThenNegated(rd, a, b, f, d);
    TwoOptionsTable(b, a);
  }

  /** The test's "-lyc should win" lines with bare flags, in either order, for every dash spelling and default. */
  lemma PositiveWinsBare(rd: Reading, lp: string, ln: string, f: string, d: bool)
    requires IsLead(lp) && IsLead(ln) && IsFlagBase(f)
    ensures GetBool(rd, ResetTable((lp + f) + " " + (ln + "no" + f)), "-" + f, d)
    ensures GetBool(rd, ResetTable((ln + "no" + f) + " " + (lp + f)), "-" + f, d)
  {
    var nf := "no" + f;
    assert IsFlagBase(nf);
    assert ln + "no" + f == ln + nf;
    TwoBareTable(lp, f, ln, nf);
    TwoBareTable(ln, nf, lp, f);
  }

  /** The test's "-lyc should win" lines with values, for every dash spelling and default. */
  lemma PositiveWinsValued(rd: Reading, lp: string, ln: string, f: string, v: string, w: string, d: bool)
    requires IsLead(lp) && IsLead(ln) && IsFlagBase(f) && NoSpace(v) && NoSpace(w)
    ensures GetBool(rd, ResetTable((lp + f + "=" + v) + " " + (ln + "no" + f + "=" + w)), "-" + f, d) == Truth(rd, v)
  {
    var nf := "no" + f;
    assert IsFlagBase(nf);
    assert ln + "no" + f + "=" + w == ln + nf + "=" + w;
    assert "-no" + f == "-" + nf;
    assert NoSpace(lp + f + "=" + v) && NoSpace(ln + nf + "=" + w);
    ValuedToken(lp, f, v);
    ValuedToken(ln, nf, w);
    PositiveBeatsNegated(rd, lp + f + "=" + v, ln + "no" + f + "=" + w, f, d);
  }

  /** "-f=1 -nof=1" reads true: the positive value governs. */
  lemma PositiveWinsOne(rd: Reading, lp: string, ln: string, f: string, d: bool)
    requires Lawful(rd) && IsLead(lp) && IsLead(ln) && IsFlagBase(f)
    ensures GetBool(rd, ResetTable((lp + f + "=1") + " " + (ln + "no" + f + "=1")), "-" + f, d)
  {
    PositiveWinsValued(rd, lp, ln, f, "1", "1", d);
    assert lp + f + "=" + "1" == lp + f + "=1" && ln + "no" + f + "=" + "1" == ln + "no" + f + "=1";
  }

  /** "-f=0 -nof=0" reads false: the positive value governs. */
  lemma PositiveWinsZero(rd: Reading, lp: string, ln: string, f: string, d: bool)
    requires Lawful(rd) && IsLead(lp) && IsLead(ln) && IsFlagBase(f)
    ensures !GetBool(rd, ResetTable((lp + f + "=0") + " " + (ln + "no" + f + "=0")), "-" + f, d)
  {
    PositiveWinsValued(rd, lp, ln, f, "0", "0", d);
    assert lp + f + "=" + "0" == lp + f + "=0" && ln + "no" + f + "=" + "0" == ln + "no" + f + "=0";
  }

  /** After "-f=1", re-parsing "-nof" leaves no trace of the first table. */
  method ReparseReplaces(rd: Reading, f: string) returns (before: bool, after: bool)
    requires Lawful(rd) && IsFlagBase(f)
    ensures before && !after
  {
    var table := new ArgTable();
    ResetArgs(table, "-" + f + "=1");
    before := GetBool(rd, table.args, "-" + f, false);
    ResetArgs(table, "-" + "no" + f);
    after := GetBool(rd, table.args, "-" + f, true);
    ZeroAndOne(rd, "-", f, false);
    NegatedBare(rd, "-", f, true);
  }
}
