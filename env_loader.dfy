/**
 * The `.env.local` reader of the test-user script (`loadEnv` in `scripts/create-test-user.js`).
 * The file is split on newlines; each trimmed line that is neither blank nor a `#` comment and
 * has a non-empty key before its first `=` yields an entry whose value is everything after that
 * `=`, with one leading and one trailing quote character removed and then trimmed. Later entries
 * override earlier ones, and all of them override the process environment.
 */
module EnvLoader {
  import opened Wrappers
  import opened Text

  /** One `KEY=value` entry. */
  datatype Entry = Entry(key: string, value: string)

  predicate IsQuote(c: char) {
    c == '"' || c == '\''
  }

  /**
   * `.replace(/^["']|["']$/g, '')`: a quote at the start and a quote at the end are removed
   * independently (a lone quote is removed once).
   */
  function StripQuotes(v: string): string {
    var i := if |v| > 0 && IsQuote(v[0]) then 1 else 0;
    var a := v[i..];
    var j := if |a| > 0 && IsQuote(a[|a| - 1]) then |v| - 1 else |v|;
    v[i..j]
  }

  /** At most one leading and one trailing character are removed. */
  lemma StripQuotesSlice(v: string)
    ensures exists i, j :: 0 <= i <= 1 && |v| - 1 <= j <= |v| && i <= j && StripQuotes(v) == v[i..j]
  {
    var i := if |v| > 0 && IsQuote(v[0]) then 1 else 0;
    var j := if |v[i..]| > 0 && IsQuote(v[i..][|v[i..]| - 1]) then |v| - 1 else |v|;
    assert StripQuotes(v) == v[i..j];
  }

  /** Quotes around a value are removed, whichever quote characters they are. */
  lemma StripQuotesQuoted(q1: char, body: string, q2: char)
    requires IsQuote(q1) && IsQuote(q2)
    ensures StripQuotes([q1] + body + [q2]) == body
  {
    var v := [q1] + body + [q2];
    assert v[1..] == body + [q2];
    assert (body + [q2])[..|body|] == body;
  }

  /** A value that neither starts nor ends with a quote is kept as it is. */
  lemma StripQuotesPlain(v: string)
    requires v == [] || (!IsQuote(v[0]) && !IsQuote(v[|v| - 1]))
    ensures StripQuotes(v) == v
  {
  }

  /** What one line of the file contributes, if anything. */
  function ParseLine(line: string): Option<Entry> {
    var trimmed := Trim(line);
    if trimmed == "" || StartsWith(trimmed, "#") then None
    else EntryOf(Split(trimmed, '='))
  }

  /** `const [key, ...valueParts] = trimmed.split('=')` and what follows. */
  function EntryOf(parts: seq<string>): Option<Entry>
    requires |parts| >= 1
  {
    var key := parts[0];
    if key != "" && |parts| > 1 then Some(Entry(Trim(key), Trim(StripQuotes(Join(parts[1..], '=')))))
    else None
  }

  /**
   * A line yields an entry exactly when, trimmed, it is not blank, is no comment and has an `=`
   * after at least one character; the key is the trimmed text before the first `=`, never empty,
   * and the value is everything after that `=`, further `=` included, unquoted and trimmed.
   */
  lemma ParseLineMeaning(line: string)
    ensures var t := Trim(line); var k := IndexOf(t, '=');
      && (ParseLine(line).Some? <==> t != "" && !StartsWith(t, "#") && k > 0)
      && (ParseLine(line).Some? ==>
            && ParseLine(line).value.key == Trim(t[..k])
            && ParseLine(line).value.key != ""
            && ParseLine(line).value.value == Trim(StripQuotes(t[k + 1..]))
            && (k == |t| - 1 ==> ParseLine(line).value.value == ""))
  {
    var t := Trim(line);
    var k := IndexOf(t, '=');
    ParseLineIs(line, t, k);
    if t != "" && !StartsWith(t, "#") && k > 0 {
      KeyNotBlank(t, k);
      if k == |t| - 1 {
        assert t[k + 1..] == [];
      }
    }
  }

  /** What a line yields, read off the trimmed line and the position of its first `=`. */
  lemma ParseLineIs(line: string, t: string, k: int)
    requires t == Trim(line) && k == IndexOf(t, '=')
    ensures ParseLine(line) ==
      if t == "" || StartsWith(t, "#") || k <= 0 then None
      else Some(Entry(Trim(t[..k]), Trim(StripQuotes(t[k + 1..]))))
  {
    if t != "" && !StartsWith(t, "#") {
      EntryOfSplit(t);
    }
  }

  /** The entry of a line's pieces, read off the position of its first `=`. */
  lemma EntryOfSplit(t: string)
    ensures var k := IndexOf(t, '=');
      EntryOf(Split(t, '=')) == if k <= 0 then None else Some(Entry(Trim(t[..k]), Trim(StripQuotes(t[k + 1..]))))
  {
    SplitAtKey(t);
  }

  /** On a line, the key before the first `=` is non-empty exactly when that `=` is not the first character. */
  lemma SplitAtKey(t: string)
    ensures var k := IndexOf(t, '='); var parts := Split(t, '=');
      && (parts[0] != "" && |parts| > 1 <==> k > 0)
      && (k > 0 ==> parts[0] == t[..k] && Join(parts[1..], '=') == t[k + 1..])
  {
    SplitHeadTail(t, '=');
  }

  /** A key cut from a trimmed line starts on a character that is not white space, so it is not blank. */
  lemma KeyNotBlank(t: string, k: int)
    requires 0 < k <= |t| && !IsSpace(t[0])
    ensures Trim(t[..k]) != ""
  {
    TrimEmptyIffBlank(t[..k]);
    assert t[..k][0] == t[0];
  }

  /** What each line yields, line by line. */
  function Entries(lines: seq<string>): (es: seq<Option<Entry>>)
    ensures |es| == |lines| && forall i :: 0 <= i < |lines| ==> es[i] == ParseLine(lines[i])
  {
    seq(|lines|, i requires 0 <= i < |lines| => ParseLine(lines[i]))
  }

  /** The entries read, a later entry for a key replacing an earlier one. */
  function EnvOf(entries: seq<Option<Entry>>): map<string, string> {
    if entries == [] then map[]
    else
      var env := EnvOf(entries[..|entries| - 1]);
      var entry := entries[|entries| - 1];
      if entry.Some? then env[entry.value.key := entry.value.value] else env
  }

  /** Entry `j` is for `key`. */
  predicate EntryAt(entries: seq<Option<Entry>>, j: int, key: string) {
    0 <= j < |entries| && entries[j].Some? && entries[j].value.key == key
  }

  /** The keys read are exactly the keys of the entries. */
  lemma {:induction false} EnvOfKeys(entries: seq<Option<Entry>>, key: string)
    ensures key in EnvOf(entries) <==> exists j :: EntryAt(entries, j, key)
  {
    if entries != [] {
      var init := entries[..|entries| - 1];
      EnvOfKeys(init, key);
      assert EntryAt(entries, |init|, key) <==> entries[|init|].Some? && entries[|init|].value.key == key;
      if exists j :: EntryAt(init, j, key) {
        var j :| EntryAt(init, j, key);
        assert EntryAt(entries, j, key);
      }
      if exists j :: EntryAt(entries, j, key) {
        var j :| EntryAt(entries, j, key);
        if j < |init| {
          assert EntryAt(init, j, key);
        } else {
          assert entries[|entries| - 1].value.key == key;
        }
      }
    }
  }

  /** A key's value is the one of the last entry for it. */
  lemma {:induction false} EnvOfLast(entries: seq<Option<Entry>>, j: nat, key: string)
    requires EntryAt(entries, j, key)
    requires forall j' :: j < j' < |entries| ==> !EntryAt(entries, j', key)
    ensures key in EnvOf(entries) && EnvOf(entries)[key] == entries[j].value.value
  {
    var init := entries[..|entries| - 1];
    if j < |entries| - 1 {
      assert EntryAt(init, j, key);
      forall j' | j < j' < |init| ensures !EntryAt(init, j', key) {
        assert !EntryAt(entries, j', key);
      }
      EnvOfLast(init, j, key);
      assert !EntryAt(entries, |entries| - 1, key);
    }
  }

  /** Reading one more line adds its entry, if it has one. */
  lemma EntriesStep(lines: seq<string>, i: nat)
    requires i < |lines|
    ensures var entry := ParseLine(lines[i]);
      EnvOf(Entries(lines)[..i + 1]) ==
        if entry.Some? then EnvOf(Entries(lines)[..i])[entry.value.key := entry.value.value] else EnvOf(Entries(lines)[..i])
  {
    assert Entries(lines)[..i + 1][..i] == Entries(lines)[..i];
  }

  /** The environment of the running script. */
  class ProcessEnv {
    var vars: map<string, string>

    constructor (initial: map<string, string>)
      ensures vars == initial
    {
      vars := initial;
    }

    /**
     * `loadEnv`, given what reading the file gave: `None` when it could not be read, in which
     * case the environment is left alone. Otherwise every entry read is assigned over the
     * environment (`Object.assign`).
     */
    method LoadEnv(file: Option<string>)
      modifies this
      ensures file.None? ==> vars == old(vars)
      ensures file.Some? ==> vars == old(vars) + EnvOf(Entries(Split(file.value, '\n')))
    {
      if file.None? {
        return;
      }
      var envVars := ReadEntries(Split(file.value, '\n'));
      vars := vars + envVars;
    }
  }

  /** The `forEach` over the lines, collecting entries into `envVars`. */
  method ReadEntries(lines: seq<string>) returns (envVars: map<string, string>)
    ensures envVars == EnvOf(Entries(lines))
  {
    envVars := map[];
    var i := 0;
    while i < |lines|
      invariant 0 <= i <= |lines|
      invariant envVars == EnvOf(Entries(lines)[..i])
    {
      var entry := ParseLine(lines[i]);
      EntriesStep(lines, i);
      if entry.Some? {
        envVars := envVars[entry.value.key := entry.value.value];
      }
      i := i + 1;
    }
    assert Entries(lines)[..i] == Entries(lines);
  }

  /**
   * After loading, a key the file sets has the value of its last entry, and every other variable
   * keeps the value it had.
   */
  lemma LoadedValue(before: map<string, string>, entries: seq<Option<Entry>>, key: string)
    ensures var after := before + EnvOf(entries);
      && (key in after <==> key in before || exists j :: EntryAt(entries, j, key))
      && (forall j :: EntryAt(entries, j, key) && (forall j' :: j < j' < |entries| ==> !EntryAt(entries, j', key)) ==>
            after[key] == entries[j].value.value)
      && (!(exists j :: EntryAt(entries, j, key)) && key in before ==> after[key] == before[key])
  {
    EnvOfKeys(entries, key);
    forall j | EntryAt(entries, j, key) && (forall j' :: j < j' < |entries| ==> !EntryAt(entries, j', key))
      ensures (before + EnvOf(entries))[key] == entries[j].value.value
    {
      EnvOfLast(entries, j, key);
    }
  }
}
