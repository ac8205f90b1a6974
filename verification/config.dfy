/**
 * The Configuration class: a live section/key/value store filled from a
 * configuration file, queried and edited in place, written back as text, and
 * able to run a registered handler for each section/key pair.
 *
 * The file behind config_path is given as its lines (None when it cannot be
 * opened); save_to_file returns the lines it would write. A handler is known
 * by an identity, and each call of one is appended to `trace`.
 */
module Config {
  import opened Wrappers
  import opened Text
  import opened Numeric
  import opened Store
  import opened Parser
  import opened Serialiser

  class Configuration {
    /** section_to_key_to_value */
    var data: ConfigData
    /** section_key_to_config_logic */
    var handlers: Registry
    /** Every handler call made so far, oldest first. */
    var trace: seq<Invocation>

    /** No section is kept without keys. */
    ghost predicate Valid()
      reads this
    {
      NoEmptySection(data)
    }

    /**
     * Reads the file into an empty store, keeps the given handlers and, when
     * `apply` holds, runs the handler of every stored pair that has one.
     */
    constructor (file: Option<seq<string>>, logic: Registry, apply: bool)
      ensures Valid()
      ensures data == ParseFile(map[], file) && handlers == logic
      ensures apply ==> IsDispatch(trace, data, handlers)
      ensures !apply ==> trace == []
    {
      data := map[];
      handlers := logic;
      trace := [];
      new;
      ParseConfigFile(file);
      if apply {
        ApplyConfigLogic();
        assert trace[0..] == trace;
      }
    }

    /**
     * Discards the in-memory store, reads the file again and runs the
     * handlers for what was read.
     */
    method ReloadConfigFromFile(file: Option<seq<string>>)
      requires Valid()
      modifies this`data, this`trace
      ensures Valid()
      ensures data == ParseFile(map[], file)
      ensures |old(trace)| <= |trace| && trace[..|old(trace)|] == old(trace)
      ensures IsDispatch(trace[|old(trace)|..], data, handlers)
    {
      data := map[];
      ParseConfigFile(file);
      ApplyConfigLogic();
    }

    /** Installs `h` for (s, k), replacing any handler there; nothing is called. */
    method RegisterConfigHandler(s: string, k: string, h: HandlerId)
      modifies this`handlers
      ensures handlers == old(handlers)[(s, k) := h]
      ensures handlers.Keys == old(handlers.Keys) + {(s, k)}
      ensures forall p :: p in old(handlers) && p != (s, k) ==> handlers[p] == old(handlers)[p]
      ensures trace == old(trace)
    {
      handlers := handlers[(s, k) := h];
    }

    /**
     * parse_config_file: the lines in order, each cut at its first comment
     * character and trimmed; a bracketed line switches the current section,
     * a line with '=' stores a key, and anything else is skipped. Pairs are
     * added to what the store already holds.
     */
    method ParseConfigFile(file: Option<seq<string>>)
      requires Valid()
      modifies this`data
      ensures Valid()
      ensures data == ParseFile(old(data), file)
    {
      if file.None? {
        return;
      }
      var lines := file.value;
      var current := "";
      var i := 0;
      while i < |lines|
        invariant 0 <= i <= |lines|
        invariant ParseState(data, current) == ParseLines(ParseState(old(data), ""), lines[..i])
      {
        current := ReadLine(lines[i], current);
        ParseStep(ParseState(old(data), ""), lines, i);
        i := i + 1;
      }
      assert lines[..|lines|] == lines;
      ParseFileNoEmptySection(old(data), file);
    }

    /**
     * One pass of the loop body of parse_config_file: `raw` read while
     * `current` is the current section; returns the section for the next line.
     */
    method ReadLine(raw: string, current: string) returns (next: string)
      modifies this`data
      ensures ParseState(data, next) == ParseLine(ParseState(old(data), current), raw)
    {
      next := current;
      var line := StripComment(raw);
      line := Trim(line);
      ParseLineCases(ParseState(data, current), raw, line);
      if line != "" {
        if line[0] == '[' && line[|line| - 1] == ']' {
          next := Trim(line[1..|line| - 1]);
        } else {
          var delimiter := Find(line, '=', 0);
          if delimiter.Some? {
            var key := Trim(line[..delimiter.value]);
            var rawValue := line[delimiter.value + 1..];
            var value := if AllSpaces(rawValue) then " " else Trim(rawValue);
            data := Put(data, current, key, value);
          }
        }
      }
    }

    /**
     * set_value: stores `v` under (s, k), creating the section if needed,
     * and with `apply` runs the pair's handler on it. It always succeeds.
     */
    method SetValue(s: string, k: string, v: string, apply: bool) returns (ok: bool)
      requires Valid()
      modifies this`data, this`trace
      ensures Valid() && ok
      ensures data == Put(old(data), s, k, v)
      ensures GetValue(s, k) == Some(v) && HasValue(s, k) && HasSection(s)
      ensures forall s', k' :: (s', k') != (s, k) ==> GetValue(s', k') == old(GetValue(s', k'))
      ensures apply && (s, k) in handlers ==> trace == old(trace) + [Invocation(handlers[(s, k)], (s, k), v)]
      ensures !(apply && (s, k) in handlers) ==> trace == old(trace)
    {
      data := Put(data, s, k, v);
      if apply {
        ApplyConfigLogicForKey(s, k);
      }
      ok := true;
    }

    /** get_value: the value stored under (s, k), if any. */
    function GetValue(s: string, k: string): (r: Option<string>)
      reads this
      ensures r.Some? <==> s in data && k in data[s]
      ensures r.Some? ==> r.value == data[s][k]
    {
      if s !in data then None
      else if k !in data[s] then None
      else Some(data[s][k])
    }

    /** is_on: true only for a stored value that is exactly "on". */
    function IsOn(s: string, k: string): (r: bool)
      reads this
      ensures r <==> GetValue(s, k) == Some("on")
    {
      var value := GetValue(s, k);
      value.Some? && value.value == "on"
    }

    /**
     * get_numeric_value<T> for an integer T: None when nothing is stored,
     * and otherwise the value only when the whole stored string is a
     * numeral of T in range.
     */
    function GetNumericValue(s: string, k: string, t: IntType): (r: Option<int>)
      reads this
      ensures GetValue(s, k).None? ==> r.None?
      ensures r.Some? <==> GetValue(s, k).Some? && IsNumeral(GetValue(s, k).value, t)
                           && t.Contains(NumeralValue(GetValue(s, k).value, t))
      ensures r.Some? ==> r.value == NumeralValue(GetValue(s, k).value, t)
    {
      match GetValue(s, k)
      case None => None
      case Some(v) => ParseWhole(v, t)
    }

    /**
     * remove_value: false, changing nothing, when (s, k) holds no value;
     * otherwise erases the key, then the section if it has no key left.
     */
    method RemoveValue(s: string, k: string) returns (removed: bool)
      requires Valid()
      modifies this`data
      ensures Valid()
      ensures removed <==> old(GetValue(s, k)).Some?
      ensures !removed ==> data == old(data)
      ensures removed ==> data == Remove(old(data), s, k)
      ensures removed ==> (HasSection(s) <==> old(data[s].Keys) != {k})
      ensures GetValue(s, k).None?
    {
      if s !in data {
        return false;
      }
      if k !in data[s] {
        return false;
      }
      ghost var before := data;
      var keys := data[s] - {k};
      data := data[s := keys];
      if |keys| == 0 {
        data := data - {s};
      }
      EraseSteps(before, s, k);
      removed := true;
    }

    /** has_section: a section is present exactly when it holds some key. */
    function HasSection(s: string): (r: bool)
      reads this
      ensures Valid() ==> (r <==> exists k :: GetValue(s, k).Some?)
    {
      SectionHasKey(s);
      s in data
    }

    lemma SectionHasKey(s: string)
      ensures Valid() && s in data ==> exists k :: GetValue(s, k).Some?
    {
      if Valid() && s in data {
        var k := SomeKey(data[s]);
        assert GetValue(s, k).Some?;
      }
    }

    /** has_value: the same answer as asking get_value. */
    function HasValue(s: string, k: string): (r: bool)
      reads this
      ensures r <==> GetValue(s, k).Some?
    {
      s in data && k in data[s]
    }

    /** get_sections: every section name, once each, in the map's order. */
    method GetSections() returns (sections: seq<string>)
      ensures Enumerates(sections, data.Keys)
      ensures |sections| == |data|
    {
      sections := [];
      var rest := data.Keys;
      while rest != {}
        invariant rest <= data.Keys
        invariant Enumerates(sections, data.Keys - rest)
        decreases rest
      {
        var s :| s in rest;
        sections := sections + [s];
        rest := rest - {s};
      }
      EnumerationSize(sections, data.Keys);
    }

    /** get_keys: every key of section `s`, once each; none for an absent section. */
    method GetKeys(s: string) returns (keys: seq<string>)
      ensures Enumerates(keys, Section(data, s).Keys)
      ensures s !in data ==> keys == []
    {
      keys := [];
      if s in data {
        var rest := data[s].Keys;
        while rest != {}
          invariant rest <= data[s].Keys
          invariant Enumerates(keys, data[s].Keys - rest)
          decreases rest
        {
          var k :| k in rest;
          keys := keys + [k];
          rest := rest - {k};
        }
      }
    }

    /**
     * The loop of save_to_file: the text written is the serialisation of the
     * store in some order that lists every section and key once, and when
     * the names and values are saveable it reads back as the same store.
     */
    method SaveToFile() returns (lines: seq<string>)
      ensures exists sections, keyOrder :: Lists(data, sections, keyOrder) && lines == Serialise(data, sections, keyOrder)
      ensures Valid() && Saveable(data) ==> ParseFile(map[], Some(lines)) == data
    {
      lines := [];
      ghost var sections: seq<string> := [];
      ghost var keyOrder: map<string, seq<string>> := map[];
      var rest := data.Keys;
      while rest != {}
        invariant rest <= data.Keys
        invariant Enumerates(sections, data.Keys - rest)
        invariant forall s :: s in sections ==> s in keyOrder && Enumerates(keyOrder[s], data[s].Keys)
        invariant InStore(data, sections, keyOrder)
        invariant lines == Serialise(data, sections, keyOrder)
        decreases rest
      {
        var s :| s in rest;
        var block, keys := SectionBlock(s, data[s]);
        SaveStep(data, sections, keyOrder, s, keys);
        lines := lines + block;
        sections := sections + [s];
        keyOrder := keyOrder[s := keys];
        rest := rest - {s};
      }
      assert Lists(data, sections, keyOrder);
      if Valid() && Saveable(data) {
        SerialiseRoundTrip(data, sections, keyOrder);
      }
    }

    /** The lines save_to_file writes for one section, its keys in the map's order. */
    static method SectionBlock(s: string, keyValues: map<string, string>) returns (block: seq<string>, keys: seq<string>)
      ensures Enumerates(keys, keyValues.Keys)
      ensures forall k :: k in keys ==> k in keyValues
      ensures block == Block(keyValues, s, keys)
    {
      block := [SectionHeader(s)];
      keys := [];
      var restKeys := keyValues.Keys;
      while restKeys != {}
        invariant restKeys <= keyValues.Keys
        invariant Enumerates(keys, keyValues.Keys - restKeys)
        invariant block == [SectionHeader(s)] + KeyLines(keyValues, keys)
        decreases restKeys
      {
        var k :| k in restKeys;
        block := block + [KeyValueLine(k, keyValues[k])];
        keys := keys + [k];
        restKeys := restKeys - {k};
      }
      block := block + [""];
    }

    /**
     * apply_config_logic: one pass over every stored pair, calling the
     * pair's handler with its value when one is registered.
     */
    method ApplyConfigLogic()
      modifies this`trace
      ensures |old(trace)| <= |trace| && trace[..|old(trace)|] == old(trace)
      ensures IsDispatch(trace[|old(trace)|..], data, handlers)
    {
      var calls: seq<Invocation> := [];
      ghost var done: set<SectionKeyPair> := {};
      var rest := data.Keys;
      while rest != {}
        invariant rest <= data.Keys
        invariant trace == old(trace)
        invariant DispatchedFor(calls, data, handlers, done)
        invariant forall p :: p in done <==> p.0 in data && p.0 !in rest && p.1 in data[p.0]
        decreases rest
      {
        var s :| s in rest;
        var keyValues := data[s];
        var restKeys := keyValues.Keys;
        while restKeys != {}
          invariant restKeys <= keyValues.Keys
          invariant trace == old(trace)
          invariant DispatchedFor(calls, data, handlers, done)
          invariant forall p :: p in done <==> p.0 in data && p.1 in data[p.0] && (p.0 !in rest || (p.0 == s && p.1 !in restKeys))
          decreases restKeys
        {
          var k :| k in restKeys;
          DispatchVisit(calls, data, handlers, done, s, k);
          if (s, k) in handlers {
            calls := calls + [Invocation(handlers[(s, k)], (s, k), keyValues[k])];
          }
          done := done + {(s, k)};
          restKeys := restKeys - {k};
        }
        rest := rest - {s};
      }
      DispatchedAll(calls, data, handlers, done);
      trace := trace + calls;
      assert trace[|old(trace)|..] == calls;
    }

    /**
     * apply_config_logic_for_key: calls the handler of (s, k) with its value
     * when the pair holds a value and has a handler, and does nothing else.
     */
    method ApplyConfigLogicForKey(s: string, k: string)
      modifies this`trace
      ensures GetValue(s, k).Some? && (s, k) in handlers ==>
                trace == old(trace) + [Invocation(handlers[(s, k)], (s, k), GetValue(s, k).value)]
      ensures GetValue(s, k).None? || (s, k) !in handlers ==> trace == old(trace)
    {
      var value := GetValue(s, k);
      if value.None? {
        return;
      }
      if (s, k) in handlers {
        trace := trace + [Invocation(handlers[(s, k)], (s, k), value.value)];
      }
    }
  }

  /** Some key of a non-empty key map. */
  ghost function SomeKey(m: map<string, string>): (k: string)
    requires m != map[]
    ensures k in m
  {
    var k :| k in m; k
  }

  /** One more line of the loop of parse_config_file is one more step of the fold. */
  lemma ParseStep(st: ParseState, lines: seq<string>, i: nat)
    requires i < |lines|
    ensures ParseLines(st, lines[..i + 1]) == ParseLine(ParseLines(st, lines[..i]), lines[i])
  {
    assert lines[..i + 1] == lines[..i] + [lines[i]];
    ParseLinesAppend(st, lines[..i], [lines[i]]);
    ParseLinesSingle(ParseLines(st, lines[..i]), lines[i]);
  }

  /** Writing one more section extends the text by that section's block. */
  lemma SaveStep(d: ConfigData, sections: seq<string>, keyOrder: map<string, seq<string>>, s: string, keys: seq<string>)
    requires InStore(d, sections, keyOrder) && s in d && s !in sections
    requires forall k :: k in keys ==> k in d[s]
    ensures InStore(d, sections + [s], keyOrder[s := keys])
    ensures Serialise(d, sections + [s], keyOrder[s := keys]) == Serialise(d, sections, keyOrder) + Block(d[s], s, keys)
  {
    var ko := keyOrder[s := keys];
    SerialiseFrame(d, sections, keyOrder, ko);
    assert (sections + [s])[..|sections|] == sections;
  }
}
