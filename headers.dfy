/**
 * The header store of httpfromtcp/internal/headers: a map from lower-cased
 * field name to one combined value, with `Set` (list combination), `Get`
 * (case-insensitive), `Override` (replace) and `Parse`, which consumes one field
 * line `name ":" OWS value OWS CRLF` from the front of a byte buffer.
 */
module Headers {
  import opened Options
  import opened Strings

  /**
   * Why a field line is refused. `MissingColon` stands for the Go code's
   * index-out-of-range panic on a non-empty line with no ':' (it reads
   * `parts[1]` of a one-element split); the model makes that crash an outcome.
   */
  datatype HeaderError = SpaceInFieldName | InvalidHeaderToken | MissingColon

  /** The bytes validTokens lets through: ASCII letters, digits and '-'. */
  predicate IsTokenChar(c: char) {
    'A' <= c <= 'Z' || 'a' <= c <= 'z' || '0' <= c <= '9' || c == '-'
  }

  predicate AllTokenChars(s: seq<char>) {
    forall i :: 0 <= i < |s| ==> IsTokenChar(s[i])
  }

  /** validTokens: scans the name and reports whether every byte is a token byte. */
  method ValidTokens(data: seq<char>) returns (ok: bool)
    ensures ok <==> AllTokenChars(data)
  {
    var i := 0;
    while i < |data|
      invariant 0 <= i <= |data|
      invariant AllTokenChars(data[..i])
    {
      var c := data[i];
      if !('A' <= c <= 'Z' || 'a' <= c <= 'z' || '0' <= c <= '9' || c == '-') {
        assert !AllTokenChars(data) by { assert !IsTokenChar(data[i]); }
        return false;
      }
      assert data[..i + 1] == data[..i] + [c];
      i := i + 1;
    }
    assert data[..i] == data;
    return true;
  }

  /** The map after Set(key, value): a repeated name gets ", " + value appended. */
  function SetField(m: map<string, string>, key: string, value: string): (r: map<string, string>)
    ensures r.Keys == m.Keys + {ToLower(key)}
    ensures ToLower(key) in m ==> r[ToLower(key)] == m[ToLower(key)] + ", " + value
    ensures ToLower(key) !in m ==> r[ToLower(key)] == value
    ensures forall k :: k in m && k != ToLower(key) ==> r[k] == m[k]
  {
    var k := ToLower(key);
    m[k := if k in m then m[k] + ", " + value else value]
  }

  /** The map after Override(key, value): the value replaces whatever was there. */
  function OverrideField(m: map<string, string>, key: string, value: string): (r: map<string, string>)
    ensures r.Keys == m.Keys + {ToLower(key)}
    ensures r[ToLower(key)] == value
    ensures forall k :: k in m && k != ToLower(key) ==> r[k] == m[k]
  {
    m[ToLower(key) := value]
  }

  /** What Get(key) returns on map m: the value and true, or "" and false. */
  function GetField(m: map<string, string>, key: string): (r: (string, bool))
  {
    var k := ToLower(key);
    if k in m then (m[k], true) else ("", false)
  }

  /**
   * Get reports a name exactly when its lower-cased form is a key, and then
   * returns the value stored there; otherwise it returns the empty string.
   */
  lemma {:induction false} GetFieldSpec(m: map<string, string>, key: string)
    ensures GetField(m, key).1 <==> ToLower(key) in m
    ensures GetField(m, key).1 ==> GetField(m, key).0 == m[ToLower(key)]
    ensures !GetField(m, key).1 ==> GetField(m, key).0 == ""
  {
  }

  /** Get finds what Set stored under any casing of the same name. */
  lemma {:induction false} GetAfterSet(m: map<string, string>, setKey: string, getKey: string, value: string)
    requires ToLower(setKey) == ToLower(getKey)
    ensures GetField(SetField(m, setKey, value), getKey)
         == (if GetField(m, getKey).1 then GetField(m, getKey).0 + ", " + value else value, true)
  {
  }

  /** Setting one name leaves what Get reports for every other name unchanged. */
  lemma {:induction false} GetAfterSetOther(m: map<string, string>, setKey: string, getKey: string, value: string)
    requires ToLower(setKey) != ToLower(getKey)
    ensures GetField(SetField(m, setKey, value), getKey) == GetField(m, getKey)
  {
  }

  /** Get after Override reports exactly the new value, under any casing. */
  lemma {:induction false} GetAfterOverride(m: map<string, string>, setKey: string, getKey: string, value: string)
    requires ToLower(setKey) == ToLower(getKey)
    ensures GetField(OverrideField(m, setKey, value), getKey) == (value, true)
  {
  }

  /** Two Sets of one fresh name read back as the comma-joined list, e.g. "a, b". */
  lemma {:induction false} SetTwiceCombines(m: map<string, string>, key: string, getKey: string, first: string, second: string)
    requires ToLower(key) !in m && ToLower(getKey) == ToLower(key)
    ensures GetField(SetField(SetField(m, key, first), key, second), getKey) == (first + ", " + second, true)
  {
    GetAfterSet(m, key, key, first);
    GetAfterSet(SetField(m, key, first), key, getKey, second);
  }

  /** Outcome of parsing the front of a buffer as one field line. */
  datatype FieldLine =
    | NeedMore                                              // no CRLF yet
    | EndOfFields                                           // the empty line that ends the section
    | Field(name: string, value: string, consumed: nat)     // one field line, CRLF included
    | Malformed(error: HeaderError)

  /** The name part ends in a blank, which Parse refuses. */
  predicate EndsInSpace(key: seq<char>) {
    |key| > 0 && key[|key| - 1] == ' '
  }

  /** The bytes of a line before its first ':', or the whole line when it has none. */
  function NamePart(line: seq<char>): (key: seq<char>)
    ensures |key| <= |line| && key == line[..|key|]
    ensures ':' !in key
    ensures |key| < |line| <==> ':' in line
    ensures |key| < |line| ==> line[|key|] == ':'
  {
    var colon := IndexOf(line, ':');
    if colon == -1 then line else line[..colon]
  }

  /**
   * The checks Headers.Parse applies to one line (CRLF excluded), in the
   * source's order: a name ending in ' ' is refused before the missing ':' is
   * noticed; then both parts are trimmed and the name's bytes checked.
   */
  function FieldOfLine(line: seq<char>): (r: Result<(string, string), HeaderError>)
    ensures r == Err(SpaceInFieldName) <==> |NamePart(line)| > 0 && NamePart(line)[|NamePart(line)| - 1] == ' '
    ensures r == Err(MissingColon) ==> ':' !in line
    ensures r.Ok? ==> ':' in line && AllTokenChars(r.value.0) && IsTrimmed(r.value.1)
    ensures r.Ok? ==> |r.value.0| + |r.value.1| < |line|
  {
    var key := NamePart(line);
    if TrimRightChar(key, ' ') != key then Err(SpaceInFieldName)
    else if |key| == |line| then Err(MissingColon)
    else
      var name := TrimSpace(key);
      if !AllTokenChars(name) then Err(InvalidHeaderToken)
      else Ok((name, TrimSpace(line[|key| + 1..])))
  }

  /**
   * Which lines FieldOfLine accepts and what it reads from them. A name part
   * ending in a blank is refused first; then a line without ':' and a
   * trimmed name that is not a token are refused; every other line is
   * accepted, with the trimmed name part as the name and the trimmed text
   * after the first ':' as the value.
   */
  lemma {:induction false} FieldOfLineSpec(line: seq<char>)
    ensures var r := FieldOfLine(line);
      var key := NamePart(line);
      && (r == Err(MissingColon) <==> !EndsInSpace(key) && ':' !in line)
      && (r == Err(InvalidHeaderToken) <==> !EndsInSpace(key) && ':' in line && !AllTokenChars(TrimSpace(key)))
      && (r.Ok? <==> !EndsInSpace(key) && ':' in line && AllTokenChars(TrimSpace(key)))
      && (r.Ok? ==> |key| < |line| && r.value == (TrimSpace(key), TrimSpace(line[|key| + 1..])))
  {
  }

  /**
   * Headers.Parse as a function of the data: nothing before the first CRLF,
   * the end of the section at an empty line, otherwise the line's checks.
   */
  function ParseFieldLine(data: seq<char>): (r: FieldLine)
    ensures r.NeedMore? <==> forall i :: 0 <= i < |data| ==> !CRLFAt(data, i)
    ensures r.EndOfFields? <==> CRLFAt(data, 0)
    ensures r.Field? ==> r.consumed >= 3 && CRLFAt(data, r.consumed - 2)
    ensures r.Field? ==> forall i :: 0 <= i < r.consumed - 2 ==> !CRLFAt(data, i)
    ensures r.Field? ==> AllTokenChars(r.name) && IsTrimmed(r.value) && |r.name| + |r.value| + 3 <= r.consumed
  {
    var idx := IndexOfCRLF(data);
    if idx == -1 then NeedMore
    else if idx == 0 then EndOfFields
    else
      var line := data[..idx];
      var fields := FieldOfLine(line);
      if fields.Ok? then
        var (name, value) := fields.value;
        assert AllTokenChars(name) && IsTrimmed(value) && |name| + |value| < |line| == idx;
        assert forall i :: 0 <= i < idx ==> !CRLFAt(data, i);
        Field(name, value, idx + 2)
      else Malformed(fields.error)
  }

  /**
   * A field line or a malformed one is the verdict of FieldOfLine on the text
   * before the first CRLF.
   */
  lemma {:induction false} ParseFieldLineLine(data: seq<char>)
    ensures var r := ParseFieldLine(data);
      && (r.Field? ==> FieldOfLine(data[..r.consumed - 2]) == Ok((r.name, r.value)))
      && (r.Malformed? ==> 0 < IndexOfCRLF(data) && FieldOfLine(data[..IndexOfCRLF(data)]) == Err(r.error))
      && (0 < IndexOfCRLF(data) && FieldOfLine(data[..IndexOfCRLF(data)]).Ok? ==> r.Field?)
  {
    var idx := IndexOfCRLF(data);
    if idx > 0 {
      var f := FieldOfLine(data[..idx]);
      if f.Ok? {
        assert ParseFieldLine(data) == Field(f.value.0, f.value.1, idx + 2);
      } else {
        assert ParseFieldLine(data) == Malformed(f.error);
      }
    }
  }

  /** Once a line's CRLF has arrived, later bytes do not change how the line parses. */
  lemma {:induction false} ParseFieldLineExtend(x: seq<char>, y: seq<char>)
    requires !NoCRLF(x)
    ensures ParseFieldLine(x + y) == ParseFieldLine(x)
  {
    IndexOfCRLFExtend(x, y);
    var idx := IndexOfCRLF(x);
    assert (x + y)[..idx] == x[..idx];
  }

  /** The bytes "name: value\r\n", the form in which field lines are written out. */
  function FieldLineText(name: string, value: string): string {
    name + ": " + value + "\r\n"
  }

  lemma {:induction false} TokenNameShape(name: string)
    requires AllTokenChars(name)
    ensures ':' !in name && ' ' !in name && IsTrimmed(name)
  {
    if |name| > 0 {
      assert IsTokenChar(name[0]) && IsTokenChar(name[|name| - 1]);
    }
  }

  /** The line checks accept "name: value" and give back name and value. */
  lemma {:induction false} FieldOfLineText(name: string, value: string)
    requires AllTokenChars(name) && IsTrimmed(value)
    ensures FieldOfLine(name + ": " + value) == Ok((name, value))
  {
    var line := name + ": " + value;
    NamePartOfText(name, value);
    TokenNameShape(name);
    assert TrimRightChar(name, ' ') == name;
    TrimSpaceTrimmed(name);
    TrimSpaceAfterBlank(value);
    assert |name| < |line|;
  }

  /**
   * White space around the name and around the value is dropped: a token name
   * and a trimmed value come back out of the line whatever blanks surround
   * them, as in "  Host:   x  " or "Host:x".
   */
  lemma {:induction false} FieldOfLinePadded(lead: string, name: string, before: string, value: string, after: string)
    requires AllSpace(lead) && AllSpace(before) && AllSpace(after)
    requires AllTokenChars(name) && |name| > 0 && IsTrimmed(value)
    ensures FieldOfLine(lead + name + ":" + before + value + after) == Ok((name, value))
  {
    var key := lead + name;
    var tail := before + value + after;
    var line := key + [':'] + tail;
    assert lead + name + ":" + before + value + after == line;
    TokenNameShape(name);
    assert forall i :: 0 <= i < |lead| ==> IsSpace(lead[i]);
    assert ':' !in key;
    IndexOfAfterPiece(key, ':', tail);
    assert NamePart(line) == key;
    assert key[|key| - 1] == name[|name| - 1] && IsTokenChar(name[|name| - 1]);
    assert lead + name + [] == key;
    TrimSpacePadded(lead, name, []);
    assert line[|key| + 1..] == tail;
    TrimSpacePadded(before, value, after);
  }

  /** In "name: value" the name is everything before the first ':'. */
  lemma {:induction false} NamePartOfText(name: string, value: string)
    requires AllTokenChars(name)
    ensures var line := name + ": " + value;
      NamePart(line) == name && line[|name| + 1..] == " " + value
  {
    var line := name + ": " + value;
    TokenNameShape(name);
    assert line == name + [':'] + (" " + value);
    IndexOfAfterPiece(name, ':', " " + value);
  }

  lemma {:induction false} FieldLineTextNoCRLF(name: string, value: string)
    requires AllTokenChars(name) && NoCRLF(value)
    ensures NoCRLF(name + ": " + value)
  {
    var lineText := name + ": " + value;
    forall i | 0 <= i < |lineText|
      ensures !CRLFAt(lineText, i)
    {
      if i < |name| {
        assert lineText[i] == name[i] && IsTokenChar(name[i]);
      } else if i >= |name| + 2 && i + 1 < |lineText| {
        assert lineText[i] == value[i - |name| - 2] && lineText[i + 1] == value[i + 1 - |name| - 2];
        assert !CRLFAt(value, i - |name| - 2);
      }
    }
  }

  /**
   * Parse inverts the writer's line format: a token name and a trimmed value
   * with no CRLF come back out of "name: value\r\n", whatever follows.
   */
  lemma {:induction false} ParseFieldLineText(name: string, value: string, rest: seq<char>)
    requires AllTokenChars(name) && IsTrimmed(value) && NoCRLF(value)
    ensures ParseFieldLine(FieldLineText(name, value) + rest) == Field(name, value, |FieldLineText(name, value)|)
  {
    var lineText := name + ": " + value;
    var data := FieldLineText(name, value) + rest;
    assert data == lineText + "\r\n" + rest;
    FieldLineTextNoCRLF(name, value);
    IndexOfCRLFAfterLine(lineText, rest);
    assert data[..|lineText|] == lineText;
    FieldOfLineText(name, value);
  }

  /**
   * The Go type Headers: a map from lower-cased field name to value, shared by
   * reference, so its methods update it in place.
   */
  class Headers {
    var entries: map<string, string>

    /** NewHeaders */
    constructor ()
      ensures entries == map[]
    {
      entries := map[];
    }

    method Set(key: string, value: string)
      modifies this
      ensures entries == SetField(old(entries), key, value)
    {
      var k := ToLower(key);
      var v := value;
      if k in entries {
        v := entries[k] + ", " + value;
      }
      entries := entries[k := v];
    }

    /** The value stored under the lower-cased key and true, or "" and false. */
    function Get(key: string): (r: (string, bool))
      reads this
      ensures r.1 <==> ToLower(key) in entries
      ensures r.1 ==> r.0 == entries[ToLower(key)]
      ensures !r.1 ==> r.0 == ""
    {
      GetField(entries, key)
    }

    method Override(key: string, value: string)
      modifies this
      ensures entries == OverrideField(old(entries), key, value)
    {
      entries := entries[ToLower(key) := value];
    }

    /**
     * Consumes one field line from the front of data. Returns the bytes used
     * and whether the empty line ending the section was seen; on an error
     * nothing is consumed and the map is untouched.
     */
    method Parse(data: seq<char>) returns (n: nat, done: bool, err: Option<HeaderError>)
      modifies this
      ensures var r := ParseFieldLine(data);
        && n == (if r.Field? then r.consumed else if r.EndOfFields? then 2 else 0)
        && done == r.EndOfFields?
        && err == (if r.Malformed? then Some(r.error) else None)
        && entries == (if r.Field? then SetField(old(entries), r.name, r.value) else old(entries))
    {
      var idx := IndexOfCRLF(data);
      if idx == -1 {
        assert ParseFieldLine(data) == NeedMore;
        return 0, false, None;
      }
      if idx == 0 {
        assert ParseFieldLine(data) == EndOfFields;
        return 2, true, None;
      }
      var line := data[..idx];
      var key := NamePart(line);
      if key != TrimRightChar(key, ' ') {
        assert ParseFieldLine(data) == Malformed(SpaceInFieldName);
        return 0, false, Some(SpaceInFieldName);
      }
      if |key| == |line| {
        assert ParseFieldLine(data) == Malformed(MissingColon);
        return 0, false, Some(MissingColon);
      }
      var value := TrimSpace(line[|key| + 1..]);
      key := TrimSpace(key);
      var valid := ValidTokens(key);
      if !valid {
        assert ParseFieldLine(data) == Malformed(InvalidHeaderToken);
        return 0, false, Some(InvalidHeaderToken);
      }
      assert FieldOfLine(line) == Ok((key, value));
      assert ParseFieldLine(data) == Field(key, value, idx + 2);
      Set(key, value);
      return idx + 2, false, None;
    }
  }
}
