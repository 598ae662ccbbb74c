// The header collection of internal/headers/headers.go: a map from
// lower-cased field name to value, merged on duplicates, and a parser that
// reads one header line per call from a growing buffer.

module HttpHeaders {
  import opened Wrappers
  import opened Bytes

  datatype HeaderError =
    | ParseNoColon        // no ':' in the header line
    | NoFieldName         // nothing before the ':'
    | SpaceBeforeColon    // white space right before the ':'
    | InvalidCharInName   // a byte outside the token set in the name
    | InvalidFieldName    // `Get` or `Replace` asked for an invalid name
    | HeaderNotFound      // `Replace` on a name with no (or an empty) value

  type HeaderMap = map<string, string>

  /** The punctuation allowed in a field name besides letters and digits: one of !#$%&'*+-.^_`|~ */
  predicate IsSymbol(b: char)
  {
    || b == '!' || b == '#' || b == '$' || b == '%' || b == '&' || b == '\'' || b == '*' || b == '+'
    || b == '-' || b == '.' || b == '^' || b == '_' || b == '`' || b == '|' || b == '~'
  }

  /** `unicode.IsLetter(rune(b))` for a byte `b` <= 127. */
  predicate IsLetter(b: char)
  {
    'A' <= b <= 'Z' || 'a' <= b <= 'z'
  }

  /** `unicode.IsNumber(rune(b))` for a byte `b` <= 127. */
  predicate IsNumber(b: char)
  {
    '0' <= b <= '9'
  }

  /** The bytes a field name may contain: the token characters of HTTP. */
  predicate IsTokenByte(b: char)
  {
    b as int <= 127 && (IsLetter(b) || IsNumber(b) || IsSymbol(b))
  }

  /** `validateFieldName`: scans the name and stops at the first byte that is not allowed. */
  function ValidFieldName(s: string): (ok: bool)
    ensures ok <==> forall i :: 0 <= i < |s| ==> IsTokenByte(s[i])
  {
    if |s| == 0 then true
    else if s[0] as int > 127 then false
    else if IsLetter(s[0]) || IsNumber(s[0]) || IsSymbol(s[0]) then ValidFieldName(s[1..])
    else false
  }

  /** Lower-casing a name neither makes it valid nor invalid. */
  lemma ValidLower(s: string)
    ensures ValidFieldName(Lower(s)) <==> ValidFieldName(s)
  {
    var l := Lower(s);
    forall i | 0 <= i < |s| ensures IsTokenByte(l[i]) <==> IsTokenByte(s[i]) {
      assert l[i] == LowerByte(s[i]);
    }
  }

  /** `Get`: an error for an invalid name, else the value stored under the lower-cased name, or "". */
  function Lookup(h: HeaderMap, name: string): (r: Result<string, HeaderError>)
    ensures r.Failure? <==> !ValidFieldName(name)
    ensures r.Failure? ==> r.error == InvalidFieldName
    ensures r.Success? && Lower(name) in h ==> r.value == h[Lower(name)]
    ensures r.Success? && Lower(name) !in h ==> r.value == ""
  {
    if !ValidFieldName(name) then Failure(InvalidFieldName)
    else
      var key := Lower(name);
      if key !in h then Success("") else Success(h[key])
  }

  /** `Get` is case-insensitive: names that agree after lower-casing find the same value. */
  lemma LookupCaseInsensitive(h: HeaderMap, a: string, b: string)
    requires Lower(a) == Lower(b)
    ensures Lookup(h, a) == Lookup(h, b)
  {
    ValidLower(a);
    ValidLower(b);
  }

  /** `Set`: the lower-cased name gets the value, appended after ", " when it was already there. */
  function Merge(h: HeaderMap, name: string, value: string): (r: HeaderMap)
    ensures r.Keys == h.Keys + {Lower(name)}
    ensures Lower(name) !in h ==> r[Lower(name)] == value
    ensures Lower(name) in h ==> r[Lower(name)] == h[Lower(name)] + ", " + value
    ensures forall k :: k in h && k != Lower(name) ==> r[k] == h[k]
  {
    var key := Lower(name);
    if key in h then h[key := h[key] + ", " + value] else h[key := value]
  }

  /** Duplicates merge left to right: setting `a` then `b` under one name yields "a, b". */
  lemma MergeTwice(h: HeaderMap, name: string, a: string, b: string)
    requires Lower(name) !in h
    ensures Merge(Merge(h, name, a), name, b) == h[Lower(name) := a + ", " + b]
  {
  }

  /** Every key is lower-case and a valid field name: the shape `Get`'s lower-casing relies on. */
  predicate WellKeyed(h: HeaderMap)
  {
    forall k :: k in h ==> Lower(k) == k && ValidFieldName(k)
  }

  /** `Set` with a valid name keeps every key lower-case and valid. */
  lemma MergeWellKeyed(h: HeaderMap, name: string, value: string)
    requires WellKeyed(h) && ValidFieldName(name)
    ensures WellKeyed(Merge(h, name, value))
  {
    LowerIdempotent(name);
    ValidLower(name);
  }

  /** In a well-keyed map every stored value is what `Get` finds, under any spelling of its key. */
  lemma WellKeyedLookup(h: HeaderMap, k: string)
    requires WellKeyed(h) && k in h
    ensures forall name :: Lower(name) == k ==> Lookup(h, name) == Success(h[k])
  {
    forall name | Lower(name) == k
      ensures Lookup(h, name) == Success(h[k])
    {
      ValidLower(name);
    }
  }

  /** What one call of `Parse` finds at the front of the buffer. */
  datatype LineParse =
    | NeedMore                                           // no CRLF yet
    | EndOfHeaders                                       // the empty line
    | Field(name: string, value: string, consumed: nat)  // one header line
    | Bad(err: HeaderError)

  /** A header line `Parse` accepts keeps the map well keyed. */
  lemma ParseLineWellKeyed(h: HeaderMap, data: string)
    requires ParseLine(data).Field?
    ensures WellKeyed(h) ==> WellKeyed(Merge(h, ParseLine(data).name, ParseLine(data).value))
  {
    if WellKeyed(h) {
      MergeWellKeyed(h, ParseLine(data).name, ParseLine(data).value);
    }
  }

  /** The pure part of `Parse`: wait for a CRLF, then classify the line before it. */
  function ParseLine(data: string): (r: LineParse)
    ensures r.NeedMore? <==> !Contains(data, CRLF)
    ensures r.Field? ==> r.consumed == IndexOf(data, CRLF) + 2 <= |data|
  {
    if !Contains(data, CRLF) then NeedMore
    else ClassifyLine(data[..IndexOf(data, CRLF)])
  }

  /** The checks `Parse` makes on one complete line, in order; a good line is consumed with its CRLF. */
  function ClassifyLine(line: string): (r: LineParse)
    ensures !r.NeedMore?
    ensures r.EndOfHeaders? <==> |line| == 0
    ensures r.Field? ==> r.consumed == |line| + 2
    ensures r.Field? ==> |r.name| > 0 && ValidFieldName(r.name) && Lower(r.name) == r.name
  {
    if |line| == 0 then EndOfHeaders
    else
      var colon := IndexOfByte(line, ':');
      if colon == -1 then Bad(ParseNoColon)
      else if colon == 0 then Bad(NoFieldName)
      else if IsSpaceRune(line[colon - 1]) then Bad(SpaceBeforeColon)
      else
        var name := TrimSpace(line[..colon]);
        if name == "" then Bad(NoFieldName)
        else
          var key := Lower(name);
          if !ValidFieldName(key) then Bad(InvalidCharInName)
          else
            LowerIdempotent(name);
            Field(key, TrimSpace(line[colon + 1..]), |line| + 2)
  }

  lemma LowerIdempotent(s: string)
    ensures Lower(Lower(s)) == Lower(s)
  {
  }

  /** The empty line, and only the empty line, ends the header block: the buffer starts with CRLF. */
  lemma ParseLineEnd(data: string)
    ensures ParseLine(data).EndOfHeaders? <==> |data| >= 2 && data[..2] == CRLF
  {
    if |data| >= 2 && data[..2] == CRLF {
      assert OccursAt(data, CRLF, 0);
    }
  }

  /** The checks of `Parse` in the order it makes them: each error names the first check that fails. */
  lemma ParseLineErrors(data: string)
    requires Contains(data, CRLF)
    ensures var line := data[..IndexOf(data, CRLF)];
      var colon := IndexOfByte(line, ':');
      && (ParseLine(data) == Bad(ParseNoColon) <==> |line| > 0 && colon == -1)
      && (ParseLine(data) == Bad(NoFieldName) <==> |line| > 0 && colon == 0)
      && (ParseLine(data) == Bad(SpaceBeforeColon) <==> colon > 0 && IsSpaceRune(line[colon - 1]))
      && (ParseLine(data) == Bad(InvalidCharInName) <==>
            colon > 0 && !IsSpaceRune(line[colon - 1]) && !ValidFieldName(Lower(TrimSpace(line[..colon]))))
  {
    var line := data[..IndexOf(data, CRLF)];
    assert ParseLine(data) == ClassifyLine(line);
    ClassifyLineErrors(line);
  }

  lemma ClassifyLineErrors(line: string)
    ensures var colon := IndexOfByte(line, ':');
      && (ClassifyLine(line) == Bad(ParseNoColon) <==> |line| > 0 && colon == -1)
      && (ClassifyLine(line) == Bad(NoFieldName) <==> |line| > 0 && colon == 0)
      && (ClassifyLine(line) == Bad(SpaceBeforeColon) <==> colon > 0 && IsSpaceRune(line[colon - 1]))
      && (ClassifyLine(line) == Bad(InvalidCharInName) <==>
            colon > 0 && !IsSpaceRune(line[colon - 1]) && !ValidFieldName(Lower(TrimSpace(line[..colon]))))
  {
    var colon := IndexOfByte(line, ':');
    if colon > 0 && !IsSpaceRune(line[colon - 1]) {
      // the name ends in a byte that is not white space, so trimming leaves it non-empty
      var name := TrimSpace(line[..colon]);
      assert !IsAsciiSpace(line[..colon][colon - 1]);
      assert name != "";
    }
  }

  /** The answer depends only on the first line: more bytes after a complete line change nothing. */
  lemma ParseLineExtend(data: string, more: string)
    requires Contains(data, CRLF)
    ensures ParseLine(data + more) == ParseLine(data)
  {
    IndexOfExtend(data, more, CRLF);
    var end := IndexOf(data, CRLF);
    assert (data + more)[..end] == data[..end];
    assert ParseLine(data + more) == ClassifyLine(data[..end]);
  }

  /** A header line as the response writer formats it: "name: value\r\n". */
  function FieldLine(name: string, value: string): string
  {
    name + ": " + value + CRLF
  }

  /** A value that survives a trip through a header line: already trimmed, without CR or LF. */
  predicate IsFieldValue(v: string)
  {
    CR !in v && LF !in v && TrimSpace(v) == v
  }

  /** Parsing a formatted header line gives back the lower-cased name and the value, and consumes the line. */
  lemma ParseFieldLine(name: string, value: string, rest: string)
    requires |name| > 0 && ValidFieldName(name) && IsFieldValue(value)
    ensures ParseLine(FieldLine(name, value) + rest) == Field(Lower(name), value, |FieldLine(name, value)|)
  {
    NameFacts(name);
    ValidLower(name);
    TrimLeadingSpace(value);
    FieldLineFirst(name, value, rest);
    ClassifyFieldText(name, value);
  }

  /** A formatted header line is the first line of the buffer. */
  lemma FieldLineFirst(name: string, value: string, rest: string)
    requires CR !in name && CR !in value
    ensures ParseLine(FieldLine(name, value) + rest) == ClassifyLine(name + ": " + value)
  {
    var data := FieldLine(name, value) + rest;
    FieldLineEnd(name, value, rest);
    assert data[..IndexOf(data, CRLF)] == name + ": " + value;
  }

  /** The text of a formatted header line passes every check of `Parse`. */
  lemma ClassifyFieldText(name: string, value: string)
    requires |name| > 0 && ':' !in name
    requires !IsSpaceRune(name[|name| - 1]) && TrimSpace(name) == name
    requires TrimSpace(" " + value) == value && ValidFieldName(Lower(name))
    ensures ClassifyLine(name + ": " + value) == Field(Lower(name), value, |name| + |value| + 4)
  {
    var text := name + ": " + value;
    var colon := |name|;
    assert IndexOfByte(text, ':') == colon && !IsSpaceRune(text[colon - 1]) by {
      FieldLineColon(name, value);
      assert text[colon - 1] == name[|name| - 1];
    }
    assert TrimSpace(text[..colon]) == name && TrimSpace(text[colon + 1..]) == value by {
      FieldLineColon(name, value);
    }
    ClassifyLineAccepts(text, colon, Lower(name), value);
  }

  /** A proof step, not a property of the program: the success case of `ClassifyLine` on a line
      whose checks all pass. */
  lemma ClassifyLineAccepts(line: string, colon: int, key: string, value: string)
    requires |line| > 0 && colon == IndexOfByte(line, ':') && colon > 0 && !IsSpaceRune(line[colon - 1])
    requires key == Lower(TrimSpace(line[..colon])) && TrimSpace(line[..colon]) != "" && ValidFieldName(key)
    requires value == TrimSpace(line[colon + 1..])
    ensures ClassifyLine(line) == Field(key, value, |line| + 2)
  {
  }

  /** What a valid, non-empty name cannot contain or start and end with. */
  lemma NameFacts(name: string)
    requires |name| > 0 && ValidFieldName(name)
    ensures ':' !in name && CR !in name
    ensures !IsSpaceRune(name[0]) && !IsSpaceRune(name[|name| - 1])
    ensures TrimSpace(name) == name
  {
    forall i | 0 <= i < |name| ensures name[i] != ':' && name[i] != CR && !IsSpaceRune(name[i]) {
      assert IsTokenByte(name[i]);
    }
    assert !IsAsciiSpace(name[0]) && !IsAsciiSpace(name[|name| - 1]);
  }

  /** The first CRLF of a formatted header line is the one that ends it. */
  lemma FieldLineEnd(name: string, value: string, rest: string)
    requires CR !in name && CR !in value
    ensures IndexOf(FieldLine(name, value) + rest, CRLF) == |name| + 2 + |value|
  {
    assert FieldLine(name, value) + rest == (name + ": " + value) + CRLF + rest;
    LineEnd(name + ": " + value, rest);
  }

  /** The first colon of a formatted header line is the one after the name. */
  lemma FieldLineColon(name: string, value: string)
    requires ':' !in name
    ensures var text := name + ": " + value;
      && IndexOfByte(text, ':') == |name|
      && text[..|name|] == name
      && text[|name| + 1..] == " " + value
  {
    var text := name + ": " + value;
    assert text[|name|] == ':';
    forall i | 0 <= i < |name| ensures text[i] != ':' {
      assert text[i] == name[i];
    }
    FirstByteAt(text, ':', |name|);
  }

  lemma TrimLeadingSpace(v: string)
    requires TrimSpace(v) == v
    ensures TrimSpace(" " + v) == v
  {
    var s := " " + v;
    var lo := SkipSpace(s, 0);
    if |v| > 0 {
      assert !IsAsciiSpace(v[0]) && !IsAsciiSpace(v[|v| - 1]);
      assert SkipSpace(s, 1) == 1;
      assert BackSpace(s, 1, |s|) == |s|;
    }
    assert s[lo..] == v;
  }

  /** Go's `Headers` map, which the server fills in place. */
  class Headers {
    var fields: HeaderMap

    /** `NewHeaders`: an empty collection. */
    constructor ()
      ensures fields == map[] && WellKeyed(fields)
    {
      fields := map[];
    }

    /** `Get`: an error for an invalid name, else the value under the lower-cased name, or "". */
    function Get(name: string): (r: Result<string, HeaderError>)
      reads this
      ensures r.Failure? <==> !ValidFieldName(name)
      ensures r.Failure? ==> r.error == InvalidFieldName
      ensures r.Success? ==> r.value == (if Lower(name) in fields then fields[Lower(name)] else "")
    {
      Lookup(fields, name)
    }

    /** `Set`: no validation of the name; duplicates are merged. */
    method Set(name: string, value: string)
      modifies this
      ensures fields == Merge(old(fields), name, value)
    {
      var key := Lower(name);
      if key in fields {
        fields := fields[key := fields[key] + ", " + value];
      } else {
        fields := fields[key := value];
      }
    }

    /** `Replace`: overwrite an existing, non-empty value; refuse anything else and leave the map alone. */
    method Replace(name: string, value: string) returns (err: Option<HeaderError>)
      modifies this
      ensures err.None? <==> ValidFieldName(name) && Lower(name) in old(fields) && old(fields)[Lower(name)] != ""
      ensures err.None? ==> fields == old(fields)[Lower(name) := value]
      ensures err.Some? ==> fields == old(fields)
      ensures err.Some? ==> err.value == (if ValidFieldName(name) then HeaderNotFound else InvalidFieldName)
    {
      var found := Get(name);
      if found.Failure? {
        return Some(found.error);
      }
      if found.value == "" {
        return Some(HeaderNotFound);
      }
      fields := fields[Lower(name) := value];
      return None;
    }

    /** `Parse`: at most one header line per call, returning (consumed, done, error). */
    method Parse(data: string) returns (n: nat, done: bool, err: Option<HeaderError>)
      modifies this
      ensures ParseLine(data).NeedMore? ==> n == 0 && !done && err == None && fields == old(fields)
      ensures ParseLine(data).EndOfHeaders? ==> n == 2 && done && err == None && fields == old(fields)
      ensures ParseLine(data).Bad? ==>
        n == 0 && !done && err == Some(ParseLine(data).err) && fields == old(fields)
      ensures ParseLine(data).Field? ==>
        var f := ParseLine(data);
        n == f.consumed && !done && err == None && fields == Merge(old(fields), f.name, f.value)
      ensures WellKeyed(old(fields)) ==> WellKeyed(fields)
    {
      match ParseLine(data)
      case NeedMore =>
        return 0, false, None;
      case EndOfHeaders =>
        return |CRLF|, true, None;
      case Bad(e) =>
        return 0, false, Some(e);
      case Field(name, value, consumed) =>
        ParseLineWellKeyed(fields, data);
        Set(name, value);
        return consumed, false, None;
    }
  }
}
