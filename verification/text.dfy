/**
 * The string helpers of the configuration parser: character search in the
 * manner of std::string::find / find_first_not_of / find_last_not_of (a
 * missing position, npos, is None), the space-and-tab trim of
 * Configuration::trim, and the removal of a trailing comment.
 */
module Text {
  import opened Wrappers

  /** The characters Configuration::trim removes: space and tab, nothing else. */
  predicate IsBlank(c: char) { c == ' ' || c == '\t' }

  predicate AllBlank(s: string) { forall i :: 0 <= i < |s| ==> IsBlank(s[i]) }

  predicate AllSpaces(s: string) { forall i :: 0 <= i < |s| ==> s[i] == ' ' }

  /** The two characters that open a comment in a configuration line. */
  predicate IsCommentChar(c: char) { c == '#' || c == ';' }

  /** std::string::find(c, from): the first position at or after `from` holding `c`. */
  function Find(s: string, c: char, from: nat): (r: Option<nat>)
    requires from <= |s|
    ensures r.Some? ==> from <= r.value < |s| && s[r.value] == c
    ensures r.Some? ==> forall j :: from <= j < r.value ==> s[j] != c
    ensures r.None? ==> forall j :: from <= j < |s| ==> s[j] != c
    decreases |s| - from
  {
    if from == |s| then None
    else if s[from] == c then Some(from)
    else Find(s, c, from + 1)
  }

  /** The first occurrence of `c` is at `p`. */
  lemma FindAt(s: string, c: char, p: nat)
    requires p < |s| && s[p] == c && forall j :: 0 <= j < p ==> s[j] != c
    ensures Find(s, c, 0) == Some(p)
  {
  }

  /** No occurrence of `c`: the search reports npos. */
  lemma FindNone(s: string, c: char)
    requires forall j :: 0 <= j < |s| ==> s[j] != c
    ensures Find(s, c, 0) == None
  {
  }

  /** find_first_not_of(" \t", from). */
  function FindFirstNotBlank(s: string, from: nat): (r: Option<nat>)
    requires from <= |s|
    ensures r.Some? ==> from <= r.value < |s| && !IsBlank(s[r.value])
    ensures r.Some? ==> forall j :: from <= j < r.value ==> IsBlank(s[j])
    ensures r.None? ==> forall j :: from <= j < |s| ==> IsBlank(s[j])
    decreases |s| - from
  {
    if from == |s| then None
    else if !IsBlank(s[from]) then Some(from)
    else FindFirstNotBlank(s, from + 1)
  }

  /** find_last_not_of(" \t"), searching the first `upto` characters from the back. */
  function FindLastNotBlank(s: string, upto: nat): (r: Option<nat>)
    requires upto <= |s|
    ensures r.Some? ==> r.value < upto && !IsBlank(s[r.value])
    ensures r.Some? ==> forall j :: r.value < j < upto ==> IsBlank(s[j])
    ensures r.None? ==> forall j :: 0 <= j < upto ==> IsBlank(s[j])
  {
    if upto == 0 then None
    else if !IsBlank(s[upto - 1]) then Some(upto - 1)
    else FindLastNotBlank(s, upto - 1)
  }

  /** No space or tab at either end. */
  predicate IsTrimmed(s: string) {
    s == "" || (!IsBlank(s[0]) && !IsBlank(s[|s| - 1]))
  }

  /**
   * Configuration::trim: the part of `s` between the first and the last
   * character that is neither a space nor a tab; "" when there is none.
   */
  function Trim(s: string): (r: string)
    ensures |r| <= |s| && IsTrimmed(r)
    ensures r == "" <==> AllBlank(s)
  {
    var start := FindFirstNotBlank(s, 0);
    var end := FindLastNotBlank(s, |s|);
    if start.None? || end.None? then ""
    else
      assert start.value <= end.value;
      s[start.value..end.value + 1]
  }

  /** The trim is a contiguous piece of `s` with only blanks cut off either side. */
  lemma TrimInfix(s: string) returns (i: nat)
    ensures i + |Trim(s)| <= |s| && Trim(s) == s[i..i + |Trim(s)|]
    ensures AllBlank(s[..i]) && AllBlank(s[i + |Trim(s)|..])
  {
    var start := FindFirstNotBlank(s, 0);
    var end := FindLastNotBlank(s, |s|);
    if start.None? || end.None? {
      i := 0;
      assert AllBlank(s[0..]);
    } else {
      i := start.value;
      assert AllBlank(s[end.value + 1..]);
    }
  }

  /** A trimmed string surrounded by blanks trims back to itself. */
  lemma TrimPadded(a: string, b: string, c: string)
    requires AllBlank(a) && AllBlank(c)
    requires IsTrimmed(b)
    ensures Trim(a + b + c) == b
  {
    var s := a + b + c;
    if b == "" {
      assert AllBlank(s) by {
        forall j | 0 <= j < |s| ensures IsBlank(s[j]) {
          if j < |a| { assert s[j] == a[j]; } else { assert s[j] == c[j - |a|]; }
        }
      }
    } else {
      FirstNotBlankOfPadded(a, b, c);
      LastNotBlankOfPadded(a, b, c);
      assert s[|a|..|a| + |b|] == b;
    }
  }

  lemma FirstNotBlankOfPadded(a: string, b: string, c: string)
    requires AllBlank(a) && b != "" && !IsBlank(b[0])
    ensures FindFirstNotBlank(a + b + c, 0) == Some(|a|)
  {
    var s := a + b + c;
    var r := FindFirstNotBlank(s, 0);
    assert s[|a|] == b[0];
    assert r.Some?;
  }

  lemma LastNotBlankOfPadded(a: string, b: string, c: string)
    requires AllBlank(c) && b != "" && !IsBlank(b[|b| - 1])
    ensures FindLastNotBlank(a + b + c, |a + b + c|) == Some(|a| + |b| - 1)
  {
    var s := a + b + c;
    var r := FindLastNotBlank(s, |s|);
    assert s[|a| + |b| - 1] == b[|b| - 1];
    assert r.Some?;
  }

  /** A string with no blank at either end is its own trim. */
  lemma TrimOfTrimmed(s: string)
    requires IsTrimmed(s)
    ensures Trim(s) == s
  {
    TrimPadded("", s, "");
    assert "" + s + "" == s;
  }

  /** Trimming is idempotent. */
  lemma TrimTrim(s: string)
    ensures Trim(Trim(s)) == Trim(s)
  {
    TrimOfTrimmed(Trim(s));
  }

  /** Characters other than space and tab (a carriage return, say) are kept. */
  lemma TrimKeepsCarriageReturn()
    ensures Trim(" \tvalue\r \t") == "value\r"
  {
    TrimPadded(" \t", "value\r", " \t");
    assert " \t" + "value\r" + " \t" == " \tvalue\r \t";
  }

  /** The position of the first '#' or ';', the smaller of the two searches (npos is None). */
  function CommentPos(line: string): (r: Option<nat>)
    ensures r.Some? ==> r.value < |line| && IsCommentChar(line[r.value])
    ensures r.Some? ==> forall j :: 0 <= j < r.value ==> !IsCommentChar(line[j])
    ensures r.None? ==> forall j :: 0 <= j < |line| ==> !IsCommentChar(line[j])
  {
    var hash := Find(line, '#', 0);
    var semicolon := Find(line, ';', 0);
    match (hash, semicolon)
    case (None, None) => None
    case (Some(h), None) => Some(h)
    case (None, Some(p)) => Some(p)
    case (Some(h), Some(p)) => Some(if h < p then h else p)
  }

  /** The line with everything from its first comment character onward removed. */
  function StripComment(line: string): (r: string)
    ensures |r| <= |line| && r == line[..|r|]
    ensures forall j :: 0 <= j < |r| ==> !IsCommentChar(r[j])
    ensures |r| < |line| ==> IsCommentChar(line[|r|])
  {
    match CommentPos(line)
    case None => line
    case Some(p) => line[..p]
  }

  predicate NoCommentChar(s: string) { forall j :: 0 <= j < |s| ==> !IsCommentChar(s[j]) }

  /** A comment that starts right after comment-free text is cut exactly there. */
  lemma StripCommentAt(body: string, comment: string)
    requires NoCommentChar(body)
    requires comment == "" || IsCommentChar(comment[0])
    ensures StripComment(body + comment) == body
  {
    var raw := body + comment;
    assert raw[..|body|] == body;
  }

  /** A line without comment characters passes through unchanged. */
  lemma StripCommentNoop(line: string)
    requires NoCommentChar(line)
    ensures StripComment(line) == line
  {
  }
}
