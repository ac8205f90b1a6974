/**
 * Configuration::parse_config_file as a function of the file's lines (the
 * lines std::getline yields). Each line: drop everything from the first '#'
 * or ';', trim spaces and tabs, skip it when empty, take "[...]" as the new
 * current section, otherwise split at the first '=' into a trimmed key and a
 * value (skipping the line when there is no '='), and store the pair under
 * the current section, which is "" before any header.
 */
module Parser {
  import opened Wrappers
  import opened Text
  import opened Store

  /** What the loop carries from one line to the next: the map and current_section. */
  datatype ParseState = ParseState(data: ConfigData, section: string)

  /** A trimmed line that names a section: it starts with '[' and ends with ']'. */
  predicate IsHeader(line: string) {
    0 < |line| && line[0] == '[' && line[|line| - 1] == ']'
  }

  /**
   * The value stored for the text after the first '=': a single space when
   * that text is all spaces (the empty text included), its trim otherwise.
   */
  function ValueOf(rawValue: string): string {
    if AllSpaces(rawValue) then " " else Trim(rawValue)
  }

  /** One pass of the loop body of parse_config_file. */
  function ParseLine(st: ParseState, raw: string): (r: ParseState)
    ensures NoEmptySection(st.data) ==> NoEmptySection(r.data)
    ensures r.data == st.data || r.section == st.section
  {
    ParseTrimmed(st, Trim(StripComment(raw)))
  }

  /** The loop body once the comment is cut and the line trimmed. */
  function ParseTrimmed(st: ParseState, line: string): (r: ParseState)
    ensures NoEmptySection(st.data) ==> NoEmptySection(r.data)
    ensures r.data == st.data || r.section == st.section
  {
    if line == "" then st
    else if IsHeader(line) then ParseState(st.data, Trim(line[1..|line| - 1]))
    else
      match Find(line, '=', 0)
      case None => st
      case Some(p) => StoreLine(st, line, p)
  }

  /** A key line whose first '=' is at `p`: the pair goes into the current section. */
  function StoreLine(st: ParseState, line: string, p: nat): (r: ParseState)
    requires p < |line|
    ensures NoEmptySection(st.data) ==> NoEmptySection(r.data)
    ensures r.section == st.section
  {
    ParseState(Put(st.data, st.section, Trim(line[..p]), ValueOf(line[p + 1..])), st.section)
  }

  /** ParseLine case by case, in the terms the loop body of parse_config_file uses. */
  lemma ParseLineCases(st: ParseState, raw: string, line: string)
    requires line == Trim(StripComment(raw))
    ensures line == "" ==> ParseLine(st, raw) == st
    ensures IsHeader(line) ==> ParseLine(st, raw) == ParseState(st.data, Trim(line[1..|line| - 1]))
    ensures line != "" && !IsHeader(line) && Find(line, '=', 0).None? ==> ParseLine(st, raw) == st
    ensures line != "" && !IsHeader(line) && Find(line, '=', 0).Some? ==>
      var p := Find(line, '=', 0).value;
      ParseLine(st, raw) == ParseState(Put(st.data, st.section, Trim(line[..p]), ValueOf(line[p + 1..])), st.section)
  {
  }

  /** The whole loop: the lines in order, starting from `st`. */
  function ParseLines(st: ParseState, lines: seq<string>): ParseState
    decreases |lines|
  {
    if lines == [] then st else ParseLines(ParseLine(st, lines[0]), lines[1..])
  }

  /**
   * parse_config_file inserting into `d`: `file` is None when the file cannot
   * be opened, which leaves `d` as it is.
   */
  function ParseFile(d: ConfigData, file: Option<seq<string>>): ConfigData {
    match file
    case None => d
    case Some(lines) => ParseLines(ParseState(d, ""), lines).data
  }

  /** Parsing two blocks of lines is parsing the first, then the second from where it left off. */
  lemma {:induction false} ParseLinesAppend(st: ParseState, a: seq<string>, b: seq<string>)
    ensures ParseLines(st, a + b) == ParseLines(ParseLines(st, a), b)
    decreases |a|
  {
    if a == [] {
      assert a + b == b;
    } else {
      assert (a + b)[1..] == a[1..] + b;
      ParseLinesAppend(ParseLine(st, a[0]), a[1..], b);
    }
  }

  lemma ParseLinesSingle(st: ParseState, line: string)
    ensures ParseLines(st, [line]) == ParseLine(st, line)
  {
    assert [line][1..] == [];
  }

  /** Parsing never leaves a section without keys. */
  lemma {:induction false} ParseLinesNoEmptySection(st: ParseState, lines: seq<string>)
    requires NoEmptySection(st.data)
    ensures NoEmptySection(ParseLines(st, lines).data)
    decreases |lines|
  {
    if lines != [] {
      ParseLinesNoEmptySection(ParseLine(st, lines[0]), lines[1..]);
    }
  }

  lemma ParseFileNoEmptySection(d: ConfigData, file: Option<seq<string>>)
    requires NoEmptySection(d)
    ensures NoEmptySection(ParseFile(d, file))
  {
    if file.Some? {
      ParseLinesNoEmptySection(ParseState(d, ""), file.value);
    }
  }

  /** A line that is empty or blank once its comment is removed changes nothing. */
  lemma CommentOrBlankLine(st: ParseState, raw: string)
    requires AllBlank(StripComment(raw))
    ensures ParseLine(st, raw) == st
  {
  }

  /** A header line switches the section and adds no key, even when it holds '='. */
  lemma HeaderLine(st: ParseState, raw: string)
    requires IsHeader(Trim(StripComment(raw)))
    ensures var line := Trim(StripComment(raw));
      ParseLine(st, raw) == ParseState(st.data, Trim(line[1..|line| - 1]))
  {
  }

  /** A line that is neither blank nor a header and has no '=' is skipped. */
  lemma LineWithoutDelimiter(st: ParseState, raw: string)
    requires var line := Trim(StripComment(raw)); !IsHeader(line) && forall j :: 0 <= j < |line| ==> line[j] != '='
    ensures ParseLine(st, raw) == st
  {
  }

  /**
   * On a trimmed line the text after '=' is all spaces only when it is empty:
   * the line cannot end in a blank.
   */
  lemma RawValueAllSpaces(line: string, p: nat)
    requires IsTrimmed(line) && p < |line|
    ensures AllSpaces(line[p + 1..]) <==> p + 1 == |line|
  {
    if p + 1 < |line| {
      assert line[p + 1..][|line| - p - 2] == line[|line| - 1];
    }
  }

  /** A stored value is never empty and never has blanks around it, except the single space. */
  ghost predicate TidyValue(v: string) {
    v == " " || (v != "" && IsTrimmed(v))
  }

  ghost predicate TidyValues(d: ConfigData) {
    forall s, k :: s in d && k in d[s] ==> TidyValue(d[s][k])
  }

  /**
   * The value a key line stores: exactly " " when nothing but blanks follows
   * the first '=' (spaces and tabs alike, as the whole line was trimmed
   * first), and otherwise the non-empty trimmed text.
   */
  lemma KeyLineValue(line: string, p: nat)
    requires IsTrimmed(line) && p < |line|
    ensures AllBlank(line[p + 1..]) ==> ValueOf(line[p + 1..]) == " "
    ensures !AllBlank(line[p + 1..]) ==> ValueOf(line[p + 1..]) == Trim(line[p + 1..]) != ""
    ensures TidyValue(ValueOf(line[p + 1..]))
  {
    RawValueAllSpaces(line, p);
    var rest := line[p + 1..];
    if rest != "" {
      assert rest[|rest| - 1] == line[|line| - 1];
      assert !AllBlank(rest);
    }
  }

  lemma PutTidy(d: ConfigData, s: string, k: string, v: string)
    requires TidyValues(d) && TidyValue(v)
    ensures TidyValues(Put(d, s, k, v))
  {
    var r := Put(d, s, k, v);
    forall s', k' | s' in r && k' in r[s'] ensures TidyValue(r[s'][k']) {
      if s' == s && k' != k {
        assert k' in d[s];
      }
    }
  }

  lemma ParseLineTidy(st: ParseState, raw: string)
    requires TidyValues(st.data)
    ensures TidyValues(ParseLine(st, raw).data)
  {
    var line := Trim(StripComment(raw));
    ParseLineCases(st, raw, line);
    if line != "" && !IsHeader(line) && Find(line, '=', 0).Some? {
      KeyLineTidy(st.data, st.section, line, Find(line, '=', 0).value);
    }
  }

  lemma KeyLineTidy(d: ConfigData, section: string, line: string, p: nat)
    requires TidyValues(d) && IsTrimmed(line) && p < |line|
    ensures TidyValues(Put(d, section, Trim(line[..p]), ValueOf(line[p + 1..])))
  {
    KeyLineValue(line, p);
    PutTidy(d, section, Trim(line[..p]), ValueOf(line[p + 1..]));
  }

  /** Every value parsing stores is " " or a non-empty trimmed string. */
  lemma {:induction false} ParseLinesTidy(st: ParseState, lines: seq<string>)
    requires TidyValues(st.data)
    ensures TidyValues(ParseLines(st, lines).data)
    decreases |lines|
  {
    if lines != [] {
      ParseLineTidy(st, lines[0]);
      ParseLinesTidy(ParseLine(st, lines[0]), lines[1..]);
    }
  }

  /** A key line, given its trimmed text, the position of its first '=', its key and its value. */
  lemma KeyLine(st: ParseState, raw: string, line: string, p: nat, key: string, value: string)
    requires line == Trim(StripComment(raw)) && line != "" && !IsHeader(line)
    requires Find(line, '=', 0) == Some(p)
    requires key == Trim(line[..p]) && value == ValueOf(line[p + 1..])
    ensures ParseLines(st, [raw]) == ParseState(Put(st.data, st.section, key, value), st.section)
  {
    ParseLinesSingle(st, raw);
    ParseLineTrimmed(st, raw, line);
    KeyLineStore(st, line, p);
  }

  lemma ParseLineTrimmed(st: ParseState, raw: string, line: string)
    requires line == Trim(StripComment(raw))
    ensures ParseLine(st, raw) == ParseTrimmed(st, line)
  {
  }

  lemma KeyLineStore(st: ParseState, line: string, p: nat)
    requires line != "" && !IsHeader(line) && Find(line, '=', 0) == Some(p)
    ensures ParseTrimmed(st, line) == StoreLine(st, line, p)
  {
  }

  /**
   * The anatomy of a key line: blanks, a key, blanks, '=', blanks, a value,
   * blanks, then an optional comment. The key and the value are what is
   * stored; a missing value is stored as " ". The value may hold '='.
   */
  lemma {:induction false} KeyLineAnatomy(st: ParseState, a: string, k: string, b: string, c: string, v: string, d: string, comment: string)
    requires AllBlank(a) && AllBlank(b) && AllBlank(c) && AllBlank(d)
    requires k != "" && IsTrimmed(k) && k[0] != '[' && NoCommentChar(k)
    requires forall j :: 0 <= j < |k| ==> k[j] != '='
    requires IsTrimmed(v) && NoCommentChar(v)
    requires comment == "" || IsCommentChar(comment[0])
    ensures ParseLines(st, [a + k + b + "=" + c + v + d + comment])
      == ParseState(Put(st.data, st.section, k, if v == "" then " " else v), st.section)
  {
    var raw := a + k + b + "=" + c + v + d + comment;
    var rest := if v == "" then "" else c + v;
    var line := k + b + "=" + rest;
    var value := if v == "" then " " else v;
    KeyLineText(a, k, b, c, v, d, comment);
    var p := |k| + |b|;
    SplitKeyLine(k, b, rest, p);
    ValueAfterDelimiter(c, v);
    KeyLine(st, raw, line, p, k, value);
  }

  /** The value read from blanks and a trimmed value: the value, or " " when it is empty. */
  lemma ValueAfterDelimiter(c: string, v: string)
    requires AllBlank(c) && IsTrimmed(v)
    ensures ValueOf(if v == "" then "" else c + v) == if v == "" then " " else v
  {
    if v != "" {
      assert c + v == c + v + "";
      TrimPadded(c, v, "");
      assert (c + v)[|c|] == v[0];
    }
  }

  /** A key line without its comment and outer blanks: key, blanks, '=', then blanks and the value if any. */
  lemma KeyLineText(a: string, k: string, b: string, c: string, v: string, d: string, comment: string)
    requires AllBlank(a) && AllBlank(b) && AllBlank(c) && AllBlank(d)
    requires k != "" && IsTrimmed(k) && k[0] != '[' && NoCommentChar(k)
    requires IsTrimmed(v) && NoCommentChar(v)
    requires comment == "" || IsCommentChar(comment[0])
    ensures var line := k + b + "=" + (if v == "" then "" else c + v);
      && Trim(StripComment(a + k + b + "=" + c + v + d + comment)) == line
      && line != "" && !IsHeader(line)
  {
    var body := a + k + b + "=" + c + v + d;
    var rest := if v == "" then "" else c + v;
    var line := k + b + "=" + rest;
    assert NoCommentChar(body) by {
      forall j | 0 <= j < |body| ensures !IsCommentChar(body[j]) {
        BlankOrPartChar(a, k, b, c, v, d, j);
      }
    }
    StripCommentAt(body, comment);
    TrimKeyLineBody(a, k, b, c, v, d);
    assert Trim(body) == line by {
      if v == "" { assert rest == ""; } else { assert rest == c + v; }
    }
    assert line[0] == k[0];
  }

  /** Splitting "key blanks = rest" at its first '=' gives back the key and the rest. */
  lemma SplitKeyLine(k: string, b: string, rest: string, p: nat)
    requires IsTrimmed(k) && AllBlank(b) && p == |k| + |b|
    requires forall j :: 0 <= j < |k| ==> k[j] != '='
    ensures var line := k + b + "=" + rest;
      && Find(line, '=', 0) == Some(p)
      && Trim(line[..p]) == k
      && line[p + 1..] == rest
  {
    var line := k + b + "=" + rest;
    assert line[p] == '=';
    forall j | 0 <= j < p ensures line[j] != '=' {
      if j < |k| { assert line[j] == k[j]; } else { assert line[j] == b[j - |k|]; }
    }
    FindAt(line, '=', p);
    assert line[..p] == "" + k + b;
    TrimPadded("", k, b);
    assert line[p + 1..] == rest;
  }

  /** Every character of the pieces of a key line is blank or comes from the key or the value. */
  lemma BlankOrPartChar(a: string, k: string, b: string, c: string, v: string, d: string, j: nat)
    requires AllBlank(a) && AllBlank(b) && AllBlank(c) && AllBlank(d) && NoCommentChar(k) && NoCommentChar(v)
    requires j < |a + k + b + "=" + c + v + d|
    ensures !IsCommentChar((a + k + b + "=" + c + v + d)[j])
  {
    var body := a + k + b + "=" + c + v + d;
    var i := j;
    if i < |a| { assert body[j] == a[i]; return; }
    i := i - |a|;
    if i < |k| { assert body[j] == k[i]; return; }
    i := i - |k|;
    if i < |b| { assert body[j] == b[i]; return; }
    i := i - |b|;
    if i == 0 { assert body[j] == '='; return; }
    i := i - 1;
    if i < |c| { assert body[j] == c[i]; return; }
    i := i - |c|;
    if i < |v| { assert body[j] == v[i]; return; }
    i := i - |v|;
    assert body[j] == d[i];
  }

  /** The trimmed key line runs from the key to the end of the value, or to '=' when there is no value. */
  lemma TrimKeyLineBody(a: string, k: string, b: string, c: string, v: string, d: string)
    requires AllBlank(a) && AllBlank(c) && AllBlank(d)
    requires k != "" && !IsBlank(k[0]) && IsTrimmed(v)
    ensures v == "" ==> Trim(a + k + b + "=" + c + v + d) == k + b + "=" + ""
    ensures v != "" ==> Trim(a + k + b + "=" + c + v + d) == k + b + "=" + (c + v)
  {
    if v == "" {
      var mid := k + b + "=";
      assert a + k + b + "=" + c + v + d == a + mid + (c + d);
      assert mid == k + b + "=" + "";
      assert AllBlank(c + d) by {
        forall j | 0 <= j < |c + d| ensures IsBlank((c + d)[j]) {
          if j < |c| { assert (c + d)[j] == c[j]; } else { assert (c + d)[j] == d[j - |c|]; }
        }
      }
      assert mid[0] == k[0];
      TrimPadded(a, mid, c + d);
    } else {
      var mid := k + b + "=" + (c + v);
      assert a + k + b + "=" + c + v + d == a + mid + d;
      assert mid[0] == k[0] && mid[|mid| - 1] == v[|v| - 1];
      TrimPadded(a, mid, d);
    }
  }

  /**
   * Any key line, cut at its first '=': whatever precedes it (blank, empty, or
   * starting with '[') is trimmed into the key, and whatever follows it up to
   * the comment is the value, " " when that is only blanks. The line is a key
   * line unless its trimmed text is a header.
   */
  lemma KeyLineParts(st: ParseState, pre: string, post: string, comment: string)
    requires NoCommentChar(pre + "=" + post)
    requires forall j :: 0 <= j < |pre| ==> pre[j] != '='
    requires comment == "" || IsCommentChar(comment[0])
    requires !IsHeader(Trim(pre + "=" + post))
    ensures ParseLines(st, [pre + "=" + post + comment])
      == ParseState(Put(st.data, st.section, Trim(pre), if AllBlank(post) then " " else Trim(post)), st.section)
  {
    var body := pre + "=" + post;
    StripCommentAt(body, comment);
    var lead, line, tail, p := KeyLinePieces(pre, post);
    TrimPadded(lead, line, tail);
    KeyLine(st, body + comment, line, p, Trim(pre), if AllBlank(post) then " " else Trim(post));
  }

  /** "pre = post" as blanks, the trimmed line, blanks; the trimmed line's first '=' and its two sides. */
  lemma KeyLinePieces(pre: string, post: string) returns (lead: string, line: string, tail: string, p: nat)
    requires forall j :: 0 <= j < |pre| ==> pre[j] != '='
    ensures pre + "=" + post == lead + line + tail
    ensures AllBlank(lead) && AllBlank(tail) && IsTrimmed(line) && line != ""
    ensures Find(line, '=', 0) == Some(p)
    ensures Trim(line[..p]) == Trim(pre)
    ensures ValueOf(line[p + 1..]) == if AllBlank(post) then " " else Trim(post)
  {
    var k, gap, rest;
    lead, k, gap := KeySide(pre);
    rest, tail := ValueSide(post);
    line, p := AssembleKeyLine(lead, k, gap, rest, tail);
  }

  /** Key, blanks, '=' and the kept value text form a trimmed line split at its first '='. */
  lemma AssembleKeyLine(lead: string, k: string, gap: string, rest: string, tail: string) returns (line: string, p: nat)
    requires IsTrimmed(k) && AllBlank(gap) && (k == "" ==> gap == "")
    requires forall j :: 0 <= j < |k| ==> k[j] != '='
    requires rest == "" || !IsBlank(rest[|rest| - 1])
    ensures (lead + k + gap) + "=" + (rest + tail) == lead + line + tail
    ensures IsTrimmed(line) && line != ""
    ensures Find(line, '=', 0) == Some(p)
    ensures Trim(line[..p]) == k && line[p + 1..] == rest
  {
    line := k + gap + "=" + rest;
    p := |k| + |gap|;
    if k != "" { assert line[0] == k[0]; } else { assert line[0] == '='; }
    if rest != "" { assert line[|line| - 1] == rest[|rest| - 1]; } else { assert line[|line| - 1] == '='; }
    SplitKeyLine(k, gap, rest, p);
    Regroup(lead, k, gap, rest, tail);
  }

  lemma Regroup(lead: string, k: string, gap: string, rest: string, tail: string)
    ensures (lead + k + gap) + "=" + (rest + tail) == lead + (k + gap + "=" + rest) + tail
  {
  }

  /** The text before '=' as leading blanks, the key, and the blanks between key and '=' (none for an empty key). */
  lemma KeySide(pre: string) returns (lead: string, k: string, gap: string)
    requires forall j :: 0 <= j < |pre| ==> pre[j] != '='
    ensures pre == lead + k + gap && k == Trim(pre)
    ensures AllBlank(lead) && AllBlank(gap) && (k == "" ==> gap == "")
    ensures forall j :: 0 <= j < |k| ==> k[j] != '='
  {
    var i := TrimInfix(pre);
    k := Trim(pre);
    if k == "" {
      lead, gap := pre, "";
    } else {
      lead, gap := pre[..i], pre[i + |k|..];
      assert pre == lead + k + gap;
      forall j | 0 <= j < |k| ensures k[j] != '=' {
        assert k[j] == pre[i + j];
      }
    }
  }

  /** The text after '=' as the part the trimmed line keeps and the trailing blanks it drops. */
  lemma ValueSide(post: string) returns (rest: string, tail: string)
    ensures post == rest + tail && AllBlank(tail)
    ensures rest == "" || !IsBlank(rest[|rest| - 1])
    ensures ValueOf(rest) == if AllBlank(post) then " " else Trim(post)
  {
    var i := TrimInfix(post);
    var v := Trim(post);
    if v == "" {
      rest, tail := "", post;
    } else {
      var c := post[..i];
      rest, tail := c + v, post[i + |v|..];
      assert post == c + v + tail;
      ValueAfterDelimiter(c, v);
    }
  }

  /** Nothing before '=': the pair is stored under the empty key. */
  lemma EmptyKeyLine(st: ParseState)
    ensures ParseLines(st, ["= v"]) == ParseState(Put(st.data, st.section, "", "v"), st.section)
  {
    assert "= v" == "" + "=" + " v" + "";
    TrimPadded(" ", "v", "");
    assert " " + "v" + "" == " v";
    assert !IsBlank(" v"[1]);
    TrimOfTrimmed("= v");
    KeyLineParts(st, "", " v", "");
  }

  /** A line that opens with '[' but does not close with ']' is a key line, the '[' part of the key. */
  lemma BracketKeyLine(st: ParseState)
    ensures ParseLines(st, ["[a = b"]) == ParseState(Put(st.data, st.section, "[a", "b"), st.section)
  {
    assert "[a = b" == "[a " + "=" + " b" + "";
    BracketKeyLineParts();
    KeyLineParts(st, "[a ", " b", "");
  }

  lemma BracketKeyLineParts()
    ensures Trim("[a ") == "[a" && Trim(" b") == "b" && !AllBlank(" b")
    ensures !IsHeader(Trim("[a = b"))
  {
    TrimPadded("", "[a", " ");
    assert "" + "[a" + " " == "[a ";
    TrimPadded(" ", "b", "");
    assert " " + "b" + "" == " b";
    assert !IsBlank(" b"[1]);
    TrimOfTrimmed("[a = b");
  }

  /** The split is at the first '=', so the value may itself hold '='. */
  lemma SplitAtFirstDelimiter(st: ParseState)
    ensures ParseLines(st, ["k = a=b"]) == ParseState(Put(st.data, st.section, "k", "a=b"), st.section)
  {
    assert "k = a=b" == "" + "k" + " " + "=" + " " + "a=b" + "" + "";
    KeyLineAnatomy(st, "", "k", " ", " ", "a=b", "", "");
  }

  /** A trailing comment is cut before the value is read. */
  lemma TrailingComment(st: ParseState)
    ensures ParseLines(st, ["key = value # note"]) == ParseState(Put(st.data, st.section, "key", "value"), st.section)
  {
    assert "key = value # note" == "" + "key" + " " + "=" + " " + "value" + " " + "# note";
    KeyLineAnatomy(st, "", "key", " ", " ", "value", " ", "# note");
  }

  /** Nothing after '=' but spaces: the value is a single space. */
  lemma SpacesOnlyValue(st: ParseState)
    ensures ParseLines(st, ["key =   "]) == ParseState(Put(st.data, st.section, "key", " "), st.section)
  {
    assert "key =   " == "" + "key" + " " + "=" + "   " + "" + "" + "";
    KeyLineAnatomy(st, "", "key", " ", "   ", "", "", "");
  }

  /**
   * Nothing after '=' but tabs: the whole line was trimmed first, so the
   * text after '=' is empty and the value is a single space too.
   */
  lemma TabsOnlyValue(st: ParseState)
    ensures ParseLines(st, ["k =\t\t"]) == ParseState(Put(st.data, st.section, "k", " "), st.section)
  {
    assert "k =\t\t" == "" + "k" + " " + "=" + "\t\t" + "" + "" + "";
    KeyLineAnatomy(st, "", "k", " ", "\t\t", "", "", "");
  }

  /**
   * The anatomy of a header line: blanks, '[', blanks, a name, blanks, ']',
   * blanks, then an optional comment. The name becomes the current section,
   * even when it holds '=', and no key is added.
   */
  lemma HeaderAnatomy(st: ParseState, a: string, b: string, name: string, c: string, d: string, comment: string)
    requires AllBlank(a) && AllBlank(b) && AllBlank(c) && AllBlank(d)
    requires IsTrimmed(name) && NoCommentChar(name)
    requires comment == "" || IsCommentChar(comment[0])
    ensures ParseLines(st, [a + "[" + b + name + c + "]" + d + comment]) == ParseState(st.data, name)
  {
    var raw := a + "[" + b + name + c + "]" + d + comment;
    HeaderText(a, b, name, c, d, comment);
    ParseLinesSingle(st, raw);
    ParseLineTrimmed(st, raw, "[" + b + name + c + "]");
    HeaderInner(st, b, name, c);
  }

  /** The section a trimmed header names is its inner text, trimmed. */
  lemma HeaderInner(st: ParseState, b: string, name: string, c: string)
    requires AllBlank(b) && AllBlank(c) && IsTrimmed(name)
    ensures ParseTrimmed(st, "[" + b + name + c + "]") == ParseState(st.data, name)
  {
    var line := "[" + b + name + c + "]";
    assert line[1..|line| - 1] == b + name + c;
    TrimPadded(b, name, c);
  }

  /** A header line without its comment and outer blanks is the bracketed part. */
  lemma HeaderText(a: string, b: string, name: string, c: string, d: string, comment: string)
    requires AllBlank(a) && AllBlank(b) && AllBlank(c) && AllBlank(d)
    requires NoCommentChar(name)
    requires comment == "" || IsCommentChar(comment[0])
    ensures var line := "[" + b + name + c + "]";
      Trim(StripComment(a + "[" + b + name + c + "]" + d + comment)) == line && IsHeader(line)
  {
    var line := "[" + b + name + c + "]";
    var body := a + line + d;
    assert a + "[" + b + name + c + "]" + d + comment == body + comment;
    assert NoCommentChar(body) by {
      forall j | 0 <= j < |body| ensures !IsCommentChar(body[j]) {
        if j < |a| {
          assert body[j] == a[j];
        } else if j < |a| + |line| {
          assert body[j] == line[j - |a|];
          var i := j - |a|;
          if 0 < i <= |b| {
            assert line[i] == b[i - 1];
          } else if |b| < i <= |b| + |name| {
            assert line[i] == name[i - 1 - |b|];
          } else if |b| + |name| < i < |line| - 1 {
            assert line[i] == c[i - 1 - |b| - |name|];
          }
        } else {
          assert body[j] == d[j - |a| - |line|];
        }
      }
    }
    StripCommentAt(body, comment);
    TrimPadded(a, line, d);
  }

  /** The header's inner text is trimmed, and a comment after it is cut. */
  lemma PaddedHeader(st: ParseState)
    ensures ParseLines(st, ["  [ server ] ; main"]) == ParseState(st.data, "server")
  {
    assert "  [ server ] ; main" == "  " + "[" + " " + "server" + " " + "]" + " " + "; main";
    HeaderAnatomy(st, "  ", " ", "server", " ", " ", "; main");
  }

  /** A bracketed line names the section even when it holds '='. */
  lemma HeaderWithDelimiter(st: ParseState)
    ensures ParseLines(st, ["[a=b]"]) == ParseState(st.data, "a=b")
  {
    assert "[a=b]" == "" + "[" + "" + "a=b" + "" + "]" + "" + "";
    HeaderAnatomy(st, "", "", "a=b", "", "", "");
  }

  /** A line holding only a comment changes nothing, whatever the comment says. */
  lemma CommentOnlyLine(st: ParseState)
    ensures ParseLines(st, ["# port = 1"]) == st
  {
    var raw := "# port = 1";
    FindAt(raw, '#', 0);
    assert StripComment(raw) == "";
    ParseLinesSingle(st, raw);
    ParseLineTrimmed(st, raw, "");
  }

  /** A line that is not a header and has no '=' is skipped. */
  lemma NoDelimiterLine(st: ParseState)
    ensures ParseLines(st, ["no delimiter"]) == st
  {
    assert "no delimiter" == "no" + " " + "delimiter";
    WordsWithoutDelimiter(st, "no", " ", "delimiter");
  }

  /** Two words apart, neither holding '=' nor a comment character. */
  lemma WordsWithoutDelimiter(st: ParseState, w1: string, gap: string, w2: string)
    requires w1 != "" && w2 != "" && AllBlank(gap)
    requires forall j :: 0 <= j < |w1| ==> 'a' <= w1[j] <= 'z'
    requires forall j :: 0 <= j < |w2| ==> 'a' <= w2[j] <= 'z'
    ensures ParseLines(st, [w1 + gap + w2]) == st
  {
    var raw := w1 + gap + w2;
    assert forall j :: 0 <= j < |raw| ==> raw[j] == ' ' || raw[j] == '\t' || 'a' <= raw[j] <= 'z';
    StripCommentNoop(raw);
    TrimOfTrimmed(raw);
    FindNone(raw, '=');
    ParseLinesSingle(st, raw);
    ParseLineTrimmed(st, raw, raw);
  }

  /** Parsing two lines is parsing them one at a time. */
  lemma ParseTwoLines(st: ParseState, l0: string, l1: string, s1: ParseState, s2: ParseState)
    requires ParseLines(st, [l0]) == s1 && ParseLines(s1, [l1]) == s2
    ensures ParseLines(st, [l0, l1]) == s2
  {
    assert [l0, l1] == [l0] + [l1];
    ParseLinesAppend(st, [l0], [l1]);
  }

  /** Parsing four lines is parsing the first two, then the last two. */
  lemma ParseFourLines(st: ParseState, l0: string, l1: string, l2: string, l3: string, s2: ParseState, s4: ParseState)
    requires ParseLines(st, [l0, l1]) == s2 && ParseLines(s2, [l2, l3]) == s4
    ensures ParseLines(st, [l0, l1, l2, l3]) == s4
  {
    assert [l0, l1, l2, l3] == [l0, l1] + [l2, l3];
    ParseLinesAppend(st, [l0, l1], [l2, l3]);
  }

  /**
   * From an empty store: a repeated header resumes its section and adds to
   * it.
   */
  lemma RepeatedHeader(st: ParseState)
    requires st.data == map[]
    ensures ParseLines(st, ["[server]", "port=8080", "[server]", "host=local"]).data
      == map["server" := map["port" := "8080", "host" := "local"]]
  {
    assert "[" + "server" + "]" == "[server]";
    assert "port" + "=" + "8080" == "port=8080";
    assert "host" + "=" + "local" == "host=local";
    HeaderKeyTwice(st, "server", "port", "8080", "host", "local");
    RepeatedHeaderData(st.data);
  }

  /** A section header repeated before each of two key lines. */
  lemma HeaderKeyTwice(st: ParseState, name: string, k1: string, v1: string, k2: string, v2: string)
    requires name != "" && IsTrimmed(name) && NoCommentChar(name)
    requires k1 != "" && IsTrimmed(k1) && k1[0] != '[' && NoCommentChar(k1) && forall j :: 0 <= j < |k1| ==> k1[j] != '='
    requires v1 != "" && IsTrimmed(v1) && NoCommentChar(v1)
    requires k2 != "" && IsTrimmed(k2) && k2[0] != '[' && NoCommentChar(k2) && forall j :: 0 <= j < |k2| ==> k2[j] != '='
    requires v2 != "" && IsTrimmed(v2) && NoCommentChar(v2)
    ensures ParseLines(st, ["[" + name + "]", k1 + "=" + v1, "[" + name + "]", k2 + "=" + v2]).data
      == Put(Put(st.data, name, k1, v1), name, k2, v2)
  {
    HeaderThenKey(st, name, k1, v1);
    var s2 := ParseState(Put(st.data, name, k1, v1), name);
    HeaderThenKey(s2, name, k2, v2);
    ParseFourLines(st, "[" + name + "]", k1 + "=" + v1, "[" + name + "]", k2 + "=" + v2,
                   s2, ParseState(Put(s2.data, name, k2, v2), name));
  }

  /**
   * From an empty store at the start of a file: pairs before any header go
   * to section "", and a later line for the same key overwrites.
   */
  lemma KeysBeforeHeader(st: ParseState)
    requires st == ParseState(map[], "")
    ensures ParseLines(st, ["a=1", "[s]", "a=2", "a=3"]).data
      == map["" := map["a" := "1"], "s" := map["a" := "3"]]
  {
    assert "a" + "=" + "1" == "a=1";
    assert "[" + "s" + "]" == "[s]";
    assert "a" + "=" + "2" == "a=2";
    assert "a" + "=" + "3" == "a=3";
    KeyHeaderKeyKey(st, "a", "1", "s", "a", "2", "a", "3");
    KeysBeforeHeaderData(st.data);
  }

  /** A key line, a header, then two key lines in the new section. */
  lemma KeyHeaderKeyKey(st: ParseState, k1: string, v1: string, name: string, k2: string, v2: string, k3: string, v3: string)
    requires k1 != "" && IsTrimmed(k1) && k1[0] != '[' && NoCommentChar(k1) && forall j :: 0 <= j < |k1| ==> k1[j] != '='
    requires v1 != "" && IsTrimmed(v1) && NoCommentChar(v1)
    requires name != "" && IsTrimmed(name) && NoCommentChar(name)
    requires k2 != "" && IsTrimmed(k2) && k2[0] != '[' && NoCommentChar(k2) && forall j :: 0 <= j < |k2| ==> k2[j] != '='
    requires v2 != "" && IsTrimmed(v2) && NoCommentChar(v2)
    requires k3 != "" && IsTrimmed(k3) && k3[0] != '[' && NoCommentChar(k3) && forall j :: 0 <= j < |k3| ==> k3[j] != '='
    requires v3 != "" && IsTrimmed(v3) && NoCommentChar(v3)
    ensures ParseLines(st, [k1 + "=" + v1, "[" + name + "]", k2 + "=" + v2, k3 + "=" + v3]).data
      == Put(Put(Put(st.data, st.section, k1, v1), name, k2, v2), name, k3, v3)
  {
    KeyThenHeader(st, k1, v1, name);
    var s2 := ParseState(Put(st.data, st.section, k1, v1), name);
    KeyThenKey(s2, k2, v2, k3, v3);
    ParseFourLines(st, k1 + "=" + v1, "[" + name + "]", k2 + "=" + v2, k3 + "=" + v3,
                   s2, ParseState(Put(Put(s2.data, name, k2, v2), name, k3, v3), name));
  }

  lemma RepeatedHeaderData(d: ConfigData)
    requires d == map[]
    ensures Put(Put(d, "server", "port", "8080"), "server", "host", "local")
      == map["server" := map["port" := "8080", "host" := "local"]]
  {
    var d1 := Put(d, "server", "port", "8080");
    assert d1 == map["server" := map["port" := "8080"]];
  }

  lemma KeysBeforeHeaderData(d: ConfigData)
    requires d == map[]
    ensures Put(Put(Put(d, "", "a", "1"), "s", "a", "2"), "s", "a", "3")
      == map["" := map["a" := "1"], "s" := map["a" := "3"]]
  {
    var d1 := Put(d, "", "a", "1");
    assert d1 == map["" := map["a" := "1"]];
    var d2 := Put(d1, "s", "a", "2");
    assert "s" != "" by { assert |"s"| == 1; }
    assert d2 == map["" := map["a" := "1"], "s" := map["a" := "2"]];
    assert map["a" := "2"]["a" := "3"] == map["a" := "3"];
  }

  lemma HeaderThenKey(st: ParseState, name: string, k: string, v: string)
    requires name != "" && IsTrimmed(name) && NoCommentChar(name)
    requires k != "" && IsTrimmed(k) && k[0] != '[' && NoCommentChar(k) && forall j :: 0 <= j < |k| ==> k[j] != '='
    requires v != "" && IsTrimmed(v) && NoCommentChar(v)
    ensures ParseLines(st, ["[" + name + "]", k + "=" + v]) == ParseState(Put(st.data, name, k, v), name)
  {
    HeaderStep(st, name);
    KeyStep(ParseState(st.data, name), k, v);
    ParseTwoLines(st, "[" + name + "]", k + "=" + v, ParseState(st.data, name), ParseState(Put(st.data, name, k, v), name));
  }

  lemma KeyThenHeader(st: ParseState, k: string, v: string, name: string)
    requires k != "" && IsTrimmed(k) && k[0] != '[' && NoCommentChar(k) && forall j :: 0 <= j < |k| ==> k[j] != '='
    requires v != "" && IsTrimmed(v) && NoCommentChar(v)
    requires name != "" && IsTrimmed(name) && NoCommentChar(name)
    ensures ParseLines(st, [k + "=" + v, "[" + name + "]"]) == ParseState(Put(st.data, st.section, k, v), name)
  {
    var s1 := ParseState(Put(st.data, st.section, k, v), st.section);
    KeyStep(st, k, v);
    HeaderStep(s1, name);
    ParseTwoLines(st, k + "=" + v, "[" + name + "]", s1, ParseState(s1.data, name));
  }

  lemma KeyThenKey(st: ParseState, k1: string, v1: string, k2: string, v2: string)
    requires k1 != "" && IsTrimmed(k1) && k1[0] != '[' && NoCommentChar(k1) && forall j :: 0 <= j < |k1| ==> k1[j] != '='
    requires v1 != "" && IsTrimmed(v1) && NoCommentChar(v1)
    requires k2 != "" && IsTrimmed(k2) && k2[0] != '[' && NoCommentChar(k2) && forall j :: 0 <= j < |k2| ==> k2[j] != '='
    requires v2 != "" && IsTrimmed(v2) && NoCommentChar(v2)
    ensures ParseLines(st, [k1 + "=" + v1, k2 + "=" + v2])
      == ParseState(Put(Put(st.data, st.section, k1, v1), st.section, k2, v2), st.section)
  {
    var s1 := ParseState(Put(st.data, st.section, k1, v1), st.section);
    KeyStep(st, k1, v1);
    KeyStep(s1, k2, v2);
    ParseTwoLines(st, k1 + "=" + v1, k2 + "=" + v2, s1, ParseState(Put(s1.data, st.section, k2, v2), st.section));
  }

  /** A bare header "[name]" opens section `name`. */
  lemma HeaderStep(st: ParseState, name: string)
    requires name != "" && IsTrimmed(name) && NoCommentChar(name)
    ensures ParseLines(st, ["[" + name + "]"]) == ParseState(st.data, name)
  {
    assert "[" + name + "]" == "" + "[" + "" + name + "" + "]" + "" + "";
    HeaderAnatomy(st, "", "", name, "", "", "");
  }

  /** A bare "key=value" line stores the pair in the current section. */
  lemma KeyStep(st: ParseState, k: string, v: string)
    requires k != "" && IsTrimmed(k) && k[0] != '[' && NoCommentChar(k) && forall j :: 0 <= j < |k| ==> k[j] != '='
    requires v != "" && IsTrimmed(v) && NoCommentChar(v)
    ensures ParseLines(st, [k + "=" + v]) == ParseState(Put(st.data, st.section, k, v), st.section)
  {
    assert k + "=" + v == "" + k + "" + "=" + "" + v + "" + "";
    KeyLineAnatomy(st, "", k, "", "", v, "", "");
  }
}
