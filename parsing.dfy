/**
 * ParseParameters: how an argument vector becomes the table of options.
 *
 * The program name argv[0] is skipped. Each later token is cut at its first
 * '=' into a name and a value (empty when there is no '='). A name written
 * with one or two leading dashes is an option and is stored under its
 * one-dash spelling, so "--lyc" and "-lyc" fill the same entry; other tokens
 * are skipped. A later option overwrites an earlier one with the same key.
 * "-nolyc" is stored under its own key: negation is resolved by the lookups.
 */
module Parsing {
  import opened Options

  /** The table of options: one-dash key to value text. */
  type Table = map<string, string>

  /** One recognised option token. */
  datatype Entry = Entry(key: string, value: string)

  predicate NoEq(s: string) {
    forall i :: 0 <= i < |s| ==> s[i] != '='
  }

  /** A table key: one leading dash, not followed by a second one. */
  predicate IsKey(k: string) {
    |k| >= 1 && k[0] == '-' && (|k| == 1 || k[1] != '-') && NoEq(k)
  }

  /** Cuts a token at its first '=' into name and value. */
  function SplitAtEq(t: string): (r: (string, string))
    ensures NoEq(r.0) && |r.0| <= |t| && r.0 == t[..|r.0|]
    ensures NoEq(t) ==> r == (t, "")
    ensures !NoEq(t) ==> t == r.0 + "=" + r.1
  {
    if t == [] then ("", "")
    else if t[0] == '=' then ("", t[1..])
    else
      var r := SplitAtEq(t[1..]);
      assert t == [t[0]] + t[1..];
      assert !NoEq(t) ==> !NoEq(t[1..]);
      ([t[0]] + r.0, r.1)
  }

  /** Cutting a name without '=' joined to any value by '=' gives them back. */
  lemma {:induction false} SplitAtEqJoin(name: string, value: string)
    requires NoEq(name)
    ensures SplitAtEq(name + "=" + value) == (name, value)
  {
    if name != [] {
      var s := name + "=" + value;
      assert s[0] == name[0] && s[1..] == name[1..] + "=" + value;
      SplitAtEqJoin(name[1..], value);
      assert name == [name[0]] + name[1..];
    }
  }

  /**
   * The key a name is stored under: "-x" as is, "--x" as "-x"; None for a
   * name without a leading dash or with three or more.
   */
  function KeyOf(name: string): (r: Option<string>)
    ensures r.Some? <==> |name| >= 1 && name[0] == '-' && !(|name| >= 3 && name[1] == '-' && name[2] == '-')
    ensures r.Some? && NoEq(name) ==> IsKey(r.value)
    ensures r.Some? ==> name == r.value || name == "-" + r.value
  {
    if |name| >= 2 && name[0] == '-' && name[1] == '-' then
      if |name| >= 3 && name[2] == '-' then None else Some(name[1..])
    else if |name| >= 1 && name[0] == '-' then Some(name)
    else None
  }

  /** How ParseParameters reads one token. */
  function EntryOf(token: string): (r: Option<Entry>)
    ensures r.Some? <==> |token| >= 1 && token[0] == '-' && !(|token| >= 3 && token[1] == '-' && token[2] == '-')
    ensures r.Some? ==> IsKey(r.value.key)
    ensures r.Some? ==> SplitAtEq(token).0 in {r.value.key, "-" + r.value.key}
    ensures r.Some? && !NoEq(token) ==> token == SplitAtEq(token).0 + "=" + r.value.value
    ensures r.Some? && NoEq(token) ==> r.value.value == ""
  {
    var (name, value) := SplitAtEq(token);
    assert NoEq(token) ==> name == token;
    assert !NoEq(token) ==> token == name + "=" + value && token[|name|] == '=';
    match KeyOf(name)
    case None => None
    case Some(k) => Some(Entry(k, value))
  }

  /** A bare option "-x" is read as key "-x" with the empty value. */
  lemma BareToken(lead: string, base: string)
    requires lead == "-" || lead == "--"
    requires base != [] && base[0] != '-' && NoEq(base)
    ensures EntryOf(lead + base) == Some(Entry("-" + base, ""))
  {
    assert NoEq(lead + base);
    if lead == "--" {
      assert (lead + base)[1..] == "-" + base;
    }
  }

  /** "-x=v" is read as key "-x" with value v, whatever v holds (even '='). */
  lemma {:induction false} ValuedToken(lead: string, base: string, value: string)
    requires lead == "-" || lead == "--"
    requires base != [] && base[0] != '-' && NoEq(base)
    ensures EntryOf(lead + base + "=" + value) == Some(Entry("-" + base, value))
  {
    assert NoEq(lead + base);
    SplitAtEqJoin(lead + base, value);
    if lead == "--" {
      assert (lead + base)[1..] == "-" + base;
    }
  }

  /** A character other than '=' in front of a token goes to the front of its name. */
  lemma SplitAtEqCons(c: char, t: string)
    requires c != '='
    ensures SplitAtEq([c] + t) == ([c] + SplitAtEq(t).0, SplitAtEq(t).1)
  {
    assert ([c] + t)[1..] == t;
  }

  /** A name without a leading dash gets the same key behind one dash or two. */
  lemma KeyOfDoubleDash(n: string)
    requires n == [] || n[0] != '-'
    ensures KeyOf("--" + n) == KeyOf("-" + n)
  {
    assert ("--" + n)[1..] == "-" + n;
  }

  /** Doubling the leading dash of a token never changes how it is read. */
  lemma DoubleDashSame(rest: string)
    requires rest == [] || rest[0] != '-'
    ensures EntryOf("--" + rest) == EntryOf("-" + rest)
  {
    var n := SplitAtEq(rest).0;
    SplitAtEqCons('-', rest);
    assert "-" + rest == ['-'] + rest;
    SplitAtEqCons('-', "-" + rest);
    assert "--" + rest == ['-'] + ("-" + rest);
    assert n == [] || n[0] == rest[0];
    KeyOfDoubleDash(n);
  }

  /** The arguments after the program name. */
  function ProgramArgs(argv: seq<string>): (r: seq<string>)
    ensures |argv| >= 1 ==> argv == [argv[0]] + r
    ensures |argv| == 0 ==> r == []
  {
    if |argv| == 0 then [] else argv[1..]
  }

  /** The table after reading the tokens in order, each later entry overwriting. */
  function TableOf(toks: seq<string>): (t: Table)
    ensures forall k :: k in t ==> IsKey(k)
  {
    if toks == [] then map[]
    else
      var t := TableOf(toks[..|toks| - 1]);
      match EntryOf(toks[|toks| - 1])
      case None => t
      case Some(e) => t[e.key := e.value]
  }

  /** Reading one token more: the table so far, updated by that token if it is an option. */
  lemma TableOfAppend(toks: seq<string>, tok: string)
    ensures EntryOf(tok).None? ==> TableOf(toks + [tok]) == TableOf(toks)
    ensures EntryOf(tok).Some? ==>
              TableOf(toks + [tok]) == TableOf(toks)[EntryOf(tok).value.key := EntryOf(tok).value.value]
  {
    assert (toks + [tok])[..|toks|] == toks;
  }

  /** Token toks[i] is an option with key k. */
  predicate Sets(toks: seq<string>, i: int, k: string) {
    0 <= i < |toks| && EntryOf(toks[i]).Some? && EntryOf(toks[i]).value.key == k
  }

  /** Token toks[i] is the last option with key k. */
  predicate LastSets(toks: seq<string>, i: int, k: string) {
    Sets(toks, i, k) && forall j :: i < j < |toks| ==> !Sets(toks, j, k)
  }

  /** Reading one more token: the table so far, updated by that token's entry if it is an option. */
  lemma TableOfSnoc(toks: seq<string>, k: string)
    requires toks != []
    ensures var n := |toks| - 1;
            if Sets(toks, n, k) then k in TableOf(toks) && TableOf(toks)[k] == EntryOf(toks[n]).value.value
            else (k in TableOf(toks) <==> k in TableOf(toks[..n])) &&
                 (k in TableOf(toks) ==> TableOf(toks)[k] == TableOf(toks[..n])[k])
  {
  }

  /** The table holds exactly the keys that some token sets. */
  lemma {:induction false} InTableIffSet(toks: seq<string>, k: string)
    ensures k in TableOf(toks) <==> exists i :: Sets(toks, i, k)
  {
    if toks != [] {
      var n := |toks| - 1;
      var init := toks[..n];
      InTableIffSet(init, k);
      assert toks == init + [toks[n]];
      TableOfAppend(init, toks[n]);
      if k in TableOf(toks) && !Sets(toks, n, k) {
        var i :| Sets(init, i, k);
        assert init[i] == toks[i];
        assert Sets(toks, i, k);
      }
      if i :| Sets(toks, i, k) && i < n {
        assert init[i] == toks[i];
        assert Sets(init, i, k);
      }
    }
  }

  /**
   * Each key holds the value of the last token that sets it; tokens for other
   * keys, wherever they stand, do not matter.
   */
  lemma {:induction false} LastOccurrenceWins(toks: seq<string>, i: nat, k: string)
    requires LastSets(toks, i, k)
    ensures k in TableOf(toks) && TableOf(toks)[k] == EntryOf(toks[i]).value.value
  {
    var n := |toks| - 1;
    TableOfSnoc(toks, k);
    if i < n {
      var init := toks[..n];
      assert !Sets(toks, n, k);
      assert LastSets(init, i, k) by {
        assert init[i] == toks[i];
        forall j | i < j < n ensures !Sets(init, j, k) {
          assert init[j] == toks[j];
          assert !Sets(toks, j, k);
        }
      }
      LastOccurrenceWins(init, i, k);
    }
  }

  /** Two token lists read token by token alike give the same table. */
  lemma {:induction false} SameEntriesSameTable(toks: seq<string>, toks': seq<string>)
    requires |toks| == |toks'|
    requires forall i :: 0 <= i < |toks| ==> EntryOf(toks[i]) == EntryOf(toks'[i])
    ensures TableOf(toks) == TableOf(toks')
  {
    if toks != [] {
      var n := |toks| - 1;
      SameEntriesSameTable(toks[..n], toks'[..n]);
    }
  }

  /** "--x" and "-x" are the same option: doubling any leading dashes gives the same table. */
  lemma DoubledDashesSameTable(toks: seq<string>, toks': seq<string>)
    requires |toks| == |toks'|
    requires forall i :: 0 <= i < |toks| ==>
               toks'[i] == toks[i] ||
               (|toks[i]| >= 1 && toks[i][0] == '-' && (|toks[i]| == 1 || toks[i][1] != '-') && toks'[i] == "-" + toks[i])
    ensures TableOf(toks) == TableOf(toks')
  {
    forall i | 0 <= i < |toks| ensures EntryOf(toks[i]) == EntryOf(toks'[i]) {
      if toks'[i] != toks[i] {
        var rest := toks[i][1..];
        assert toks[i] == "-" + rest;
        assert toks'[i] == "--" + rest;
        DoubleDashSame(rest);
      }
    }
    SameEntriesSameTable(toks, toks');
  }
}
