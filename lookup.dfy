/**
 * The typed lookups GetBoolArg, GetArg (string) and GetArg (integer) over the
 * option table.
 *
 * Each takes the option name with its dash ("-lyc") and falls back to the
 * caller's default when the name is absent. Only the boolean lookup consults
 * the negated form "-nolyc", and only when "-lyc" itself is absent.
 *
 * How value text is read as a number or a truth value is a parameter: the
 * tests pin it down only for digit strings, digit-free text, "0" and "1"
 * (the predicate Lawful). Two different lawful readings are given to show
 * that nothing else is fixed.
 */
module Lookup {
  import opened Options
  import opened Decimal
  import opened Parsing

  /** How value text is read: as an integer, and as a truth value when non-empty. */
  datatype Reading = Reading(number: string -> int, truth: string -> bool)

  /** What the tests demand of a reading. */
  ghost predicate Lawful(rd: Reading) {
    && (forall s :: IsDigits(s) ==> rd.number(s) == DigitsValue(s))
    && (forall s :: NoDigit(s) ==> rd.number(s) == 0)
    && !rd.truth("0")
    && rd.truth("1")
  }

  /** A leading-digits reading: the digits at the front as the number, true when that number is not 0. */
  function PrefixReading(): (rd: Reading) {
    Reading(PrefixNumber, v => PrefixNumber(v) != 0)
  }

  /** A strict reading: only plain digit strings are numbers, and only "0" is false. */
  function StrictReading(): (rd: Reading) {
    Reading(StrictNumber, v => v != "0")
  }

  /** Both readings meet what the tests demand. */
  lemma ReadingsAreLawful()
    ensures Lawful(PrefixReading()) && Lawful(StrictReading())
  {
    forall s ensures IsDigits(s) ==> PrefixNumber(s) == DigitsValue(s)
      ensures NoDigit(s) ==> PrefixNumber(s) == 0
    {
      PrefixNumberOfDigits(s);
    }
    assert !PrefixReading().truth("0") by { PrefixNumberOfDigits("0"); }
    assert PrefixReading().truth("1") by { PrefixNumberOfDigits("1"); }
  }

  /** The two lawful readings disagree on "-x=eleven" as a boolean and on "-x=12abc" as an integer. */
  lemma ReadingsDiffer()
    ensures PrefixReading().truth("eleven") != StrictReading().truth("eleven")
    ensures PrefixReading().number("12abc") != StrictReading().number("12abc")
  {
  }

  /**
   * A present option's truth: set without a value reads true, otherwise the
   * reading decides; every lawful reading takes "1" as true and "0" as false.
   */
  function Truth(rd: Reading, value: string): (b: bool)
    ensures value == "" ==> b
    ensures Lawful(rd) && value == "1" ==> b
    ensures Lawful(rd) && value == "0" ==> !b
  {
    value == "" || rd.truth(value)
  }

  /** The negated key of an option name: "-lyc" has "-nolyc"; a name without a dash has none. */
  function NegatedKey(name: string): (r: Option<string>)
    ensures r.Some? <==> |name| >= 1 && name[0] == '-'
    ensures r.Some? ==> |r.value| == |name| + 2 && r.value[..3] == "-no" && r.value[3..] == name[1..]
    ensures r.Some? ==> r.value != name
    ensures r.Some? && IsKey(name) ==> IsKey(r.value)
  {
    if |name| >= 1 && name[0] == '-' then Some("-no" + name[1..]) else None
  }

  /** Different names never share a negated key. */
  lemma NegatedKeyInjective(a: string, b: string)
    requires NegatedKey(a).Some? && NegatedKey(a) == NegatedKey(b)
    ensures a == b
  {
    var k := NegatedKey(a).value;
    assert a[1..] == k[3..] == b[1..];
    assert a == [a[0]] + a[1..] && b == [b[0]] + b[1..];
  }

  /**
   * GetBoolArg(name, default): the name's own entry decides; failing that, its
   * negated entry decides, inverted; failing both, the default.
   */
  function GetBool(rd: Reading, t: Table, name: string, default: bool): (r: bool)
    ensures name in t ==> r == Truth(rd, t[name])
    ensures name !in t && NegatedKey(name).Some? && NegatedKey(name).value in t ==>
              r == !Truth(rd, t[NegatedKey(name).value])
    ensures r != default ==> name in t || (NegatedKey(name).Some? && NegatedKey(name).value in t)
  {
    if name in t then Truth(rd, t[name])
    else match NegatedKey(name)
      case Some(nk) => if nk in t then !Truth(rd, t[nk]) else default
      case None => default
  }

  /** GetArg(name, default) with a string default: the value verbatim, never the negated entry. */
  function GetStr(t: Table, name: string, default: string): (r: string)
    ensures name in t ==> r == t[name]
    ensures name !in t ==> r == default
  {
    if name in t then t[name] else default
  }

  /**
   * GetArg(name, default) with an integer default: the value read as a number;
   * under a lawful reading a digit string gives its value and text without a
   * digit (a bare flag included) gives 0.
   */
  function GetInt(rd: Reading, t: Table, name: string, default: int): (r: int)
    ensures name in t ==> r == rd.number(t[name])
    ensures name !in t ==> r == default
    ensures Lawful(rd) && name in t && IsDigits(t[name]) ==> r == DigitsValue(t[name])
    ensures Lawful(rd) && name in t && NoDigit(t[name]) ==> r == 0
  {
    if name in t then rd.number(t[name]) else default
  }

  /** What a lawful reading makes of the values the tests give. */
  lemma LawfulTestValues(rd: Reading)
    requires Lawful(rd)
    ensures rd.number("11") == 11 && rd.number("12") == 12 && rd.number("1") == 1
    ensures rd.number("NaN") == 0 && rd.number("NotANumber") == 0 && rd.number("") == 0
    ensures Truth(rd, "") && Truth(rd, "1") && !Truth(rd, "0")
  {
    assert IsDigits("11") && DigitsValue("11") == 11 by {
      assert "11"[..1] == "1";
    }
    assert IsDigits("12") && DigitsValue("12") == 12 by {
      assert "12"[..1] == "1";
    }
    assert IsDigits("1") && DigitsValue("1") == 1 by {
      assert "1"[..0] == "";
    }
    assert NoDigit("NaN") && NoDigit("NotANumber") && NoDigit("");
  }

  /** A name no token sets is absent: every lookup gives the caller's default. */
  lemma Absent(rd: Reading, toks: seq<string>, name: string, b: bool, s: string, n: int)
    requires forall i :: !Sets(toks, i, name)
    requires NegatedKey(name).Some? ==> forall i :: !Sets(toks, i, NegatedKey(name).value)
    ensures GetBool(rd, TableOf(toks), name, b) == b
    ensures GetStr(TableOf(toks), name, s) == s
    ensures GetInt(rd, TableOf(toks), name, n) == n
  {
    InTableIffSet(toks, name);
    if NegatedKey(name).Some? {
      InTableIffSet(toks, NegatedKey(name).value);
    }
  }

  /**
   * Wherever the positive form appears, its last occurrence decides every
   * lookup, whatever negated forms appear before or after it and whatever the
   * defaults.
   */
  lemma PositiveFormGoverns(rd: Reading, toks: seq<string>, name: string, i: nat, b: bool, s: string, n: int)
    requires LastSets(toks, i, name)
    ensures GetBool(rd, TableOf(toks), name, b) == Truth(rd, EntryOf(toks[i]).value.value)
    ensures GetStr(TableOf(toks), name, s) == EntryOf(toks[i]).value.value
    ensures GetInt(rd, TableOf(toks), name, n) == rd.number(EntryOf(toks[i]).value.value)
  {
    LastOccurrenceWins(toks, i, name);
  }

  /**
   * With the positive form absent, the last occurrence of the negated form
   * decides the boolean lookup, inverted, whatever the default; the string and
   * integer lookups still give their defaults.
   */
  lemma NegatedFormGoverns(rd: Reading, toks: seq<string>, name: string, i: nat, b: bool, s: string, n: int)
    requires forall j :: !Sets(toks, j, name)
    requires NegatedKey(name).Some? && LastSets(toks, i, NegatedKey(name).value)
    ensures GetBool(rd, TableOf(toks), name, b) == !Truth(rd, EntryOf(toks[i]).value.value)
    ensures GetStr(TableOf(toks), name, s) == s
    ensures GetInt(rd, TableOf(toks), name, n) == n
  {
    InTableIffSet(toks, name);
    LastOccurrenceWins(toks, i, NegatedKey(name).value);
  }
}
