/**
 * The text save_to_file writes, as a sequence of lines: for each section a
 * "[section]" header, one "key = value" line per key, then a blank line.
 * The order of sections and of keys is the unordered_map's iteration order,
 * which nothing fixes; it is a parameter here, and the round trip below holds
 * for every order.
 */
module Serialiser {
  import opened Wrappers
  import opened Text
  import opened Store
  import opened Parser

  function SectionHeader(s: string): string { "[" + s + "]" }

  function KeyValueLine(k: string, v: string): string { k + " = " + v }

  /** The lines for `keys` of key map `m`, in the order given. */
  function KeyLines(m: map<string, string>, keys: seq<string>): seq<string>
    requires forall k :: k in keys ==> k in m
  {
    if keys == [] then []
    else KeyLines(m, keys[..|keys| - 1]) + [KeyValueLine(keys[|keys| - 1], m[keys[|keys| - 1]])]
  }

  /** One section as written: header, key lines, blank separator. */
  function Block(m: map<string, string>, s: string, keys: seq<string>): seq<string>
    requires forall k :: k in keys ==> k in m
  {
    [SectionHeader(s)] + KeyLines(m, keys) + [""]
  }

  /** An iteration order may only name sections and keys that are stored. */
  ghost predicate InStore(d: ConfigData, sections: seq<string>, keyOrder: map<string, seq<string>>) {
    forall s :: s in sections ==> s in d && s in keyOrder && forall k :: k in keyOrder[s] ==> k in d[s]
  }

  /** `sections` and `keyOrder` list the whole store, each name once. */
  ghost predicate Lists(d: ConfigData, sections: seq<string>, keyOrder: map<string, seq<string>>) {
    && Enumerates(sections, d.Keys)
    && forall s :: s in d ==> s in keyOrder && Enumerates(keyOrder[s], d[s].Keys)
  }

  /** The lines of the loop in save_to_file, for the given iteration order. */
  function Serialise(d: ConfigData, sections: seq<string>, keyOrder: map<string, seq<string>>): (lines: seq<string>)
    requires InStore(d, sections, keyOrder)
  {
    if sections == [] then []
    else
      var s := sections[|sections| - 1];
      Serialise(d, sections[..|sections| - 1], keyOrder) + Block(d[s], s, keyOrder[s])
  }

  /** No comment character and no line break: the text stays on its line and is not cut. */
  predicate Plain(s: string) {
    forall j :: 0 <= j < |s| ==> !IsCommentChar(s[j]) && s[j] != '\n'
  }

  ghost predicate SaveableSection(s: string) { Plain(s) && IsTrimmed(s) }

  ghost predicate SaveableKey(k: string) {
    && Plain(k)
    && IsTrimmed(k)
    && (forall j :: 0 <= j < |k| ==> k[j] != '=')
    && (k == "" || k[0] != '[')
  }

  ghost predicate SaveableValue(v: string) { Plain(v) && TidyValue(v) }

  /** What a store must satisfy for its saved text to read back as the same store. */
  ghost predicate Saveable(d: ConfigData) {
    forall s :: s in d ==> SaveableSection(s) && forall k :: k in d[s] ==> SaveableKey(k) && SaveableValue(d[s][k])
  }

  /** The key line after trimming: "k = v" loses its outer blanks, and " " as value leaves "k =". */
  function TrimmedKeyLine(k: string, v: string): string {
    (if k == "" then "" else k + " ") + "=" + (if v == " " then "" else " " + v)
  }

  lemma TrimKeyValueLine(k: string, v: string)
    requires IsTrimmed(k) && TidyValue(v)
    ensures Trim(KeyValueLine(k, v)) == TrimmedKeyLine(k, v)
  {
    if k != "" && v != " " {
      TrimKeyValueLineFull(k, v);
    } else if k != "" {
      TrimKeyValueLineNoValue(k);
    } else if v != " " {
      TrimKeyValueLineNoKey(v);
    } else {
      assert KeyValueLine(k, v) == " " + "=" + "  ";
      TrimPadded(" ", "=", "  ");
    }
  }

  lemma TrimKeyValueLineFull(k: string, v: string)
    requires k != "" && IsTrimmed(k) && v != "" && IsTrimmed(v)
    ensures Trim(k + " = " + v) == k + " = " + v
  {
    assert "" + (k + " = " + v) + "" == k + " = " + v;
    TrimPadded("", k + " = " + v, "");
  }

  lemma TrimKeyValueLineNoValue(k: string)
    requires k != "" && IsTrimmed(k)
    ensures Trim(k + " = " + " ") == k + " ="
  {
    assert k + " = " + " " == "" + (k + " =") + "  ";
    TrimPadded("", k + " =", "  ");
  }

  lemma TrimKeyValueLineNoKey(v: string)
    requires v != "" && IsTrimmed(v)
    ensures Trim("" + " = " + v) == "= " + v
  {
    assert "" + " = " + v == " " + ("= " + v) + "";
    TrimPadded(" ", "= " + v, "");
  }

  lemma PlainKeyValueLine(k: string, v: string)
    requires Plain(k) && Plain(v)
    ensures NoCommentChar(KeyValueLine(k, v))
  {
    var raw := KeyValueLine(k, v);
    forall j | 0 <= j < |raw| ensures !IsCommentChar(raw[j]) {
      if j < |k| { assert raw[j] == k[j]; }
      else if j >= |k| + 3 { assert raw[j] == v[j - |k| - 3]; }
    }
  }

  /** In the trimmed key line the first '=' is the one written after the key. */
  lemma SplitTrimmedKeyLine(k: string, v: string)
    requires k == "" || k[0] != '['
    requires forall j :: 0 <= j < |k| ==> k[j] != '='
    ensures var line := TrimmedKeyLine(k, v);
      var p := if k == "" then 0 else |k| + 1;
      && !IsHeader(line)
      && Find(line, '=', 0) == Some(p)
      && line[..p] == (if k == "" then "" else k + " ")
      && line[p + 1..] == (if v == " " then "" else " " + v)
  {
    var keyPart := if k == "" then "" else k + " ";
    var valuePart := if v == " " then "" else " " + v;
    var line := TrimmedKeyLine(k, v);
    assert line == keyPart + "=" + valuePart;
    var p := |keyPart|;
    if k != "" { assert line[0] == k[0]; } else { assert line[0] == '='; }
    assert line[p] == '=';
    forall j | 0 <= j < p ensures line[j] != '=' {
      if j < |k| { assert line[j] == k[j]; }
    }
  }

  lemma TrimKeyPart(k: string)
    requires IsTrimmed(k)
    ensures Trim(if k == "" then "" else k + " ") == k
  {
    if k != "" {
      assert k + " " == "" + k + " ";
      TrimPadded("", k, " ");
    }
  }

  lemma ValueOfValuePart(v: string)
    requires TidyValue(v)
    ensures ValueOf(if v == " " then "" else " " + v) == v
  {
    if v != " " {
      var valuePart := " " + v;
      assert valuePart[1] == v[0];
      assert !AllSpaces(valuePart);
      assert valuePart == " " + v + "";
      TrimPadded(" ", v, "");
    }
  }

  /** A saveable key line reads back as the same key and value, under the current section. */
  lemma ParseKeyValueLine(st: ParseState, k: string, v: string)
    requires SaveableKey(k) && SaveableValue(v)
    ensures ParseLine(st, KeyValueLine(k, v)) == ParseState(Put(st.data, st.section, k, v), st.section)
  {
    var raw := KeyValueLine(k, v);
    PlainKeyValueLine(k, v);
    StripCommentNoop(raw);
    TrimKeyValueLine(k, v);
    SplitTrimmedKeyLine(k, v);
    TrimKeyPart(k);
    ValueOfValuePart(v);
  }

  lemma ParseKeyValueLines(st: ParseState, k: string, v: string)
    requires SaveableKey(k) && SaveableValue(v)
    ensures ParseLines(st, [KeyValueLine(k, v)]) == ParseState(Put(st.data, st.section, k, v), st.section)
  {
    ParseLinesSingle(st, KeyValueLine(k, v));
    ParseKeyValueLine(st, k, v);
  }

  /** A saveable header line reads back as the same current section. */
  lemma ParseSectionHeader(st: ParseState, s: string)
    requires SaveableSection(s)
    ensures ParseLine(st, SectionHeader(s)) == ParseState(st.data, s)
  {
    var raw := SectionHeader(s);
    assert NoCommentChar(raw) by {
      forall j | 0 <= j < |raw| ensures !IsCommentChar(raw[j]) {
        if 0 < j < |raw| - 1 { assert raw[j] == s[j - 1]; }
      }
    }
    StripCommentNoop(raw);
    assert raw == "" + raw + "";
    TrimPadded("", raw, "");
    assert raw[1..|raw| - 1] == s;
  }

  /** The keys `keys` of `m`, as a map. */
  function Pick(m: map<string, string>, keys: seq<string>): (r: map<string, string>)
    requires forall k :: k in keys ==> k in m
    ensures forall k :: k in r <==> k in keys
    ensures forall k :: k in r ==> r[k] == m[k]
  {
    map k | k in keys :: m[k]
  }

  /** Inserting one more key after a batch is inserting the extended batch. */
  lemma PutAfterPick(d: ConfigData, s: string, m: map<string, string>, init: seq<string>, k: string)
    requires forall j :: j in init ==> j in m
    requires k in m
    ensures var mid := if init == [] then d else d[s := Section(d, s) + Pick(m, init)];
      Put(mid, s, k, m[k]) == d[s := Section(d, s) + Pick(m, init + [k])]
  {
    var mid := if init == [] then d else d[s := Section(d, s) + Pick(m, init)];
    assert Section(mid, s)[k := m[k]] == Section(d, s) + Pick(m, init + [k]);
  }

  /** Reading the key lines of a section stores each of those keys under the current section. */
  lemma {:induction false} ParseKeyLines(d: ConfigData, s: string, m: map<string, string>, keys: seq<string>)
    requires forall k :: k in keys ==> k in m && SaveableKey(k) && SaveableValue(m[k])
    ensures ParseLines(ParseState(d, s), KeyLines(m, keys))
         == ParseState(if keys == [] then d else d[s := Section(d, s) + Pick(m, keys)], s)
    decreases |keys|
  {
    if keys != [] {
      var init := keys[..|keys| - 1];
      var k := keys[|keys| - 1];
      assert init + [k] == keys;
      assert forall j :: j in init ==> j in keys;
      var st := ParseState(d, s);
      var mid := if init == [] then d else d[s := Section(d, s) + Pick(m, init)];
      var line := KeyValueLine(k, m[k]);
      ParseKeyLines(d, s, m, init);
      assert ParseLines(st, KeyLines(m, init)) == ParseState(mid, s);
      assert KeyLines(m, keys) == KeyLines(m, init) + [line];
      ParseLinesAppend(st, KeyLines(m, init), [line]);
      ParseKeyValueLines(ParseState(mid, s), k, m[k]);
      PutAfterPick(d, s, m, init, k);
      assert ParseLines(ParseState(mid, s), [line]) == ParseState(d[s := Section(d, s) + Pick(m, keys)], s);
    }
  }

  lemma ParseSectionHeaderLines(st: ParseState, s: string)
    requires SaveableSection(s)
    ensures ParseLines(st, [SectionHeader(s)]) == ParseState(st.data, s)
  {
    ParseLinesSingle(st, SectionHeader(s));
    ParseSectionHeader(st, s);
  }

  lemma ParseBlankLines(st: ParseState)
    ensures ParseLines(st, [""]) == st
  {
    ParseLinesSingle(st, "");
  }

  /** A non-empty enumeration of a key map picks the whole map. */
  lemma PickAll(m: map<string, string>, keys: seq<string>)
    requires Enumerates(keys, m.Keys)
    ensures Pick(m, keys) == m
  {
  }

  /** Reading one written section from a store that lacks it adds exactly that section. */
  lemma ParseBlock(d: ConfigData, current: string, m: map<string, string>, s: string, keys: seq<string>)
    requires s !in d && m != map[] && Enumerates(keys, m.Keys)
    requires SaveableSection(s)
    requires forall k :: k in m ==> SaveableKey(k) && SaveableValue(m[k])
    ensures ParseLines(ParseState(d, current), Block(m, s, keys)).data == d[s := m]
  {
    var header := SectionHeader(s);
    var st := ParseState(d, current);
    assert Block(m, s, keys) == [header] + KeyLines(m, keys) + [""];
    assert keys != [] by {
      var k :| k in m;
      assert k in keys;
    }
    PickAll(m, keys);
    assert Section(d, s) + Pick(m, keys) == m;
    ParseSectionHeaderLines(st, s);
    ParseKeyLines(d, s, m, keys);
    var afterKeys := ParseState(d[s := m], s);
    ParseLinesAppend(st, [header], KeyLines(m, keys));
    assert ParseLines(st, [header] + KeyLines(m, keys)) == afterKeys;
    ParseLinesAppend(st, [header] + KeyLines(m, keys), [""]);
    ParseBlankLines(afterKeys);
  }

  /** The stored sections named in `sections`. */
  function Restrict(d: ConfigData, sections: seq<string>): ConfigData {
    map s | s in d && s in sections :: d[s]
  }

  /** An iteration order over part of the store: distinct sections, each with all its keys once. */
  ghost predicate PartialOrder(d: ConfigData, sections: seq<string>, keyOrder: map<string, seq<string>>) {
    && InStore(d, sections, keyOrder)
    && NoDuplicates(sections)
    && forall s :: s in sections ==> Enumerates(keyOrder[s], d[s].Keys)
  }

  lemma PartialOrderInit(d: ConfigData, sections: seq<string>, keyOrder: map<string, seq<string>>)
    requires PartialOrder(d, sections, keyOrder) && sections != []
    ensures var init := sections[..|sections| - 1];
      PartialOrder(d, init, keyOrder) && sections[|sections| - 1] !in init && init + [sections[|sections| - 1]] == sections
  {
    var init := sections[..|sections| - 1];
    var s := sections[|sections| - 1];
    assert forall i :: 0 <= i < |init| ==> init[i] == sections[i];
  }

  lemma {:induction false} ParseSerialised(d: ConfigData, sections: seq<string>, keyOrder: map<string, seq<string>>)
    requires PartialOrder(d, sections, keyOrder)
    requires NoEmptySection(d) && Saveable(d)
    ensures ParseLines(ParseState(map[], ""), Serialise(d, sections, keyOrder)).data == Restrict(d, sections)
    decreases |sections|
  {
    if sections != [] {
      var init := sections[..|sections| - 1];
      var s := sections[|sections| - 1];
      var start := ParseState(map[], "");
      PartialOrderInit(d, sections, keyOrder);
      ParseSerialised(d, init, keyOrder);
      var mid := ParseLines(start, Serialise(d, init, keyOrder));
      var block := Block(d[s], s, keyOrder[s]);
      assert Serialise(d, sections, keyOrder) == Serialise(d, init, keyOrder) + block;
      ParseLinesAppend(start, Serialise(d, init, keyOrder), block);
      ParseSerialisedStep(d, init, s, keyOrder[s], mid);
    }
  }

  lemma ParseSerialisedStep(d: ConfigData, init: seq<string>, s: string, keys: seq<string>, mid: ParseState)
    requires s in d && s !in init && mid.data == Restrict(d, init)
    requires d[s] != map[] && Enumerates(keys, d[s].Keys)
    requires SaveableSection(s) && forall k :: k in d[s] ==> SaveableKey(k) && SaveableValue(d[s][k])
    ensures ParseLines(mid, Block(d[s], s, keys)).data == Restrict(d, init + [s])
  {
    RestrictSnoc(d, init, s);
    ParseBlock(mid.data, mid.section, d[s], s, keys);
  }

  lemma RestrictSnoc(d: ConfigData, init: seq<string>, s: string)
    requires s in d
    ensures s !in init ==> s !in Restrict(d, init)
    ensures Restrict(d, init)[s := d[s]] == Restrict(d, init + [s])
  {
    var r := Restrict(d, init)[s := d[s]];
    var r' := Restrict(d, init + [s]);
    forall x ensures x in r <==> x in r' {
      assert x in init + [s] <==> x in init || x == s;
    }
    assert r.Keys == r'.Keys;
  }

  /**
   * Round trip: reading back what save_to_file writes, in any iteration
   * order, gives the same store, provided no section is empty and names and
   * values are plain, trimmed, keys hold no '=' and do not start with '[',
   * and values are non-empty.
   */
  lemma SerialiseRoundTrip(d: ConfigData, sections: seq<string>, keyOrder: map<string, seq<string>>)
    requires Lists(d, sections, keyOrder)
    requires NoEmptySection(d) && Saveable(d)
    ensures InStore(d, sections, keyOrder)
    ensures ParseFile(map[], Some(Serialise(d, sections, keyOrder))) == d
  {
    ParseSerialised(d, sections, keyOrder);
    assert Restrict(d, sections) == d;
  }

  /** The text depends only on the key orders of the sections it lists. */
  lemma {:induction false} SerialiseFrame(d: ConfigData, sections: seq<string>, ko1: map<string, seq<string>>, ko2: map<string, seq<string>>)
    requires InStore(d, sections, ko1)
    requires forall s :: s in sections ==> s in ko2 && ko2[s] == ko1[s]
    ensures InStore(d, sections, ko2)
    ensures Serialise(d, sections, ko1) == Serialise(d, sections, ko2)
    decreases |sections|
  {
    if sections != [] {
      var init := sections[..|sections| - 1];
      assert forall s :: s in init ==> s in sections;
      SerialiseFrame(d, init, ko1, ko2);
    }
  }
}
