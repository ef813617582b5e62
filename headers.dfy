/** internal/headers/headers.go: the header-line parser and the header map.

    One call of Parse looks at the unconsumed input, finds the first CRLF and
    either asks for more data, reports the blank line that ends the header
    block, rejects the line, or stores one field line in the map. The pure
    part of that decision is ParseLine; the map is the field of class
    Headers, which Set and Parse update in place. */
module Headers {
  import opened ByteStrings

  /** The errors Parse reports. MissingColon stands for the Go panic of a
      line without a colon (parts[1] indexes past a one-element slice);
      Parse reports it as a distinct outcome with nothing consumed. */
  datatype ParseError =
    | InvalidHeaderName(name: Bytes)
    | InvalidParameter
    | MissingColon

  /** What one call of Parse decides about the start of its input. */
  datatype Line =
    | NeedMore
    | EndOfBlock
    | Field(name: Bytes, value: Bytes, consumed: nat)
    | Malformed(error: ParseError)

  /** What the checks of one line decide: the trimmed name and value, or
      the error. */
  datatype Checked =
    | Accepted(name: Bytes, value: Bytes)
    | Rejected(error: ParseError)

  /** The decision of Parse, before the map is touched: the CRLF search
      and then the checks of one line. */
  function ParseLine(data: Bytes): (r: Line)
    ensures r.NeedMore? <==> forall i :: !CrlfAt(data, i)
    ensures r.EndOfBlock? <==> CrlfAt(data, 0)
  {
    match IndexCrlf(data)
    case None => NeedMore
    case Some(idx) =>
      assert CrlfAt(data, 0) <==> idx == 0;
      if idx == 0 then EndOfBlock
      else
        match CheckFieldLine(data[..idx])
        case Accepted(name, value) => Field(name, value, idx + 2)
        case Rejected(e) => Malformed(e)
  }

  /** A stored field line: Parse consumes the line up to and including
      the first CRLF, and the name it stores is a token. */
  lemma ParseLineField(data: Bytes)
    requires ParseLine(data).Field?
    ensures ParseLine(data).consumed >= 3 && FirstCrlf(data, ParseLine(data).consumed - 2)
    ensures IsValidKey(ParseLine(data).name)
  {
    var idx := IndexCrlf(data).value;
    var c := CheckFieldLine(data[..idx]);
    CheckedNameIsToken(data[..idx]);
    assert idx > 0;
    assert c.Accepted?;
    assert ParseLine(data) == Field(c.name, c.value, idx + 2);
  }

  /** The checks of one non-empty line (its CRLF removed), in the order
      headers.go makes them: the split on the first colon, the
      space-before-colon test, the missing second part, the trims and the
      token test. */
  function CheckFieldLine(line: Bytes): (r: Checked)
  {
    var parts := SplitN2(line, ':');
    var key := parts[0];
    if EndsWithSpace(key) then Rejected(InvalidHeaderName(key))
    else if |parts| < 2 then Rejected(MissingColon)
    else
      var value := TrimSpace(parts[1]);
      var name := TrimSpace(key);
      if !IsValidKey(name) then Rejected(InvalidParameter)
      else Accepted(name, value)
  }

  /** A name the checks accept is a token. */
  lemma CheckedNameIsToken(line: Bytes)
    ensures CheckFieldLine(line).Accepted? ==> IsValidKey(CheckFieldLine(line).name)
  {
  }

  /** The merge policy of Set, the combining rule of section 5.3 of
      RFC 9110: the name is lower-cased, a new name gets the value, a
      repeated name gets ", " and the value appended, and no other entry
      changes. */
  function Combine(fields: map<Bytes, Bytes>, key: Bytes, value: Bytes): (r: map<Bytes, Bytes>)
    ensures r.Keys == fields.Keys + {ToLower(key)}
    ensures ToLower(key) in fields ==> r[ToLower(key)] == fields[ToLower(key)] + ", " + value
    ensures ToLower(key) !in fields ==> r[ToLower(key)] == value
    ensures forall k :: k in fields && k != ToLower(key) ==> r[k] == fields[k]
  {
    var k := ToLower(key);
    if k in fields then fields[k := fields[k] + ", " + value] else fields[k := value]
  }

  /** Every name in the map is lower case, as Set leaves it. */
  predicate LowerCaseKeys(fields: map<Bytes, Bytes>) {
    forall k :: k in fields ==> IsLowerCase(k)
  }

  /** The header map (Go: type Headers map[string]string). */
  class Headers {
    var fields: map<Bytes, Bytes>

    /** NewHeaders: an empty map. */
    constructor ()
      ensures fields == map[]
    {
      fields := map[];
    }

    /** Set: stores value under the lower-cased key, joining a repeated
        name's values with ", ". */
    method Set(key: Bytes, value: Bytes)
      modifies this
      ensures fields == Combine(old(fields), key, value)
    {
      var k := ToLower(key);
      if k in fields {
        fields := fields[k := fields[k] + ", " + value];
      } else {
        fields := fields[k := value];
      }
    }

    /** Get: the entry for the lower-cased key, or "" and false. */
    function Get(key: Bytes): (r: (Bytes, bool))
      reads this
      ensures r.1 <==> ToLower(key) in fields
      ensures r.1 ==> r.0 == fields[ToLower(key)]
      ensures !r.1 ==> r.0 == []
    {
      var k := ToLower(key);
      if k in fields then (fields[k], true) else ([], false)
    }

    /** Parse: one step over the unconsumed input. It returns (0, false, no
        error) without a CRLF, (2, true, no error) on the blank line, an
        error with 0 consumed on a bad line, and otherwise stores the field
        and returns the length of the line with its CRLF. */
    method Parse(data: Bytes) returns (n: int, done: bool, err: Option<ParseError>)
      modifies this
      ensures ParseLine(data).NeedMore? ==> n == 0 && !done && err == None && fields == old(fields)
      ensures ParseLine(data).EndOfBlock? ==> n == 2 && done && err == None && fields == old(fields)
      ensures ParseLine(data).Malformed? ==>
        n == 0 && !done && err == Some(ParseLine(data).error) && fields == old(fields)
      ensures ParseLine(data).Field? ==>
        var line := ParseLine(data);
        n == line.consumed && !done && err == None && fields == Combine(old(fields), line.name, line.value)
    {
      var found := IndexCrlf(data);
      if found.None? {
        return 0, false, None;
      }
      var idx := found.value;
      if idx == 0 {
        return 2, true, None;
      }
      var parts := SplitN2(data[..idx], ':');
      var key := parts[0];
      TrimRightSpaceTest(key);
      if key != TrimRightByte(key, ' ') {
        return 0, false, Some(InvalidHeaderName(key));
      }
      if |parts| < 2 {
        return 0, false, Some(MissingColon);
      }
      var value := TrimSpace(parts[1]);
      key := TrimSpace(key);
      if !IsValidKey(key) {
        return 0, false, Some(InvalidParameter);
      }
      Set(key, value);
      return idx + 2, false, None;
    }
  }

  /** The trailing-space test of headers.go, key != TrimRight(key, " "),
      holds exactly when the key ends in a space. */
  lemma TrimRightSpaceTest(key: Bytes)
    ensures key != TrimRightByte(key, ' ') <==> EndsWithSpace(key)
  {
  }

  /** A line holding a colon: the name part is what comes before the first
      colon. A space right before the colon is an invalid header name, a
      trimmed name that is not a token is an invalid parameter, and
      otherwise the field is the trimmed name with the trimmed rest of the
      line (later colons included) as its value, consuming the line and its
      CRLF. */
  lemma ParseLineWithColon(data: Bytes, idx: nat, c: nat)
    requires idx > 0 && FirstCrlf(data, idx)
    requires c < idx && data[c] == ':' && ':' !in data[..c]
    ensures EndsWithSpace(data[..c]) ==> ParseLine(data) == Malformed(InvalidHeaderName(data[..c]))
    ensures !EndsWithSpace(data[..c]) && !IsValidKey(TrimSpace(data[..c])) ==>
      ParseLine(data) == Malformed(InvalidParameter)
    ensures !EndsWithSpace(data[..c]) && IsValidKey(TrimSpace(data[..c])) ==>
      ParseLine(data) == Field(TrimSpace(data[..c]), TrimSpace(data[c + 1..idx]), idx + 2)
  {
    FirstCrlfUnique(data, IndexCrlf(data).value, idx);
    var line := data[..idx];
    assert ':' in line by { assert line[c] == ':'; }
    assert line[..c] == data[..c];
    SplitN2At(line, ':', c);
    assert line[c + 1..] == data[c + 1..idx];
    TrimRightSpaceTest(data[..c]);
  }

  /** Parse judges the text before the first CRLF and nothing else. */
  lemma ParseLineAtCrlf(data: Bytes, idx: nat)
    requires idx > 0 && FirstCrlf(data, idx)
    ensures CheckFieldLine(data[..idx]).Accepted? ==>
      ParseLine(data) == Field(CheckFieldLine(data[..idx]).name, CheckFieldLine(data[..idx]).value, idx + 2)
    ensures CheckFieldLine(data[..idx]).Rejected? ==> ParseLine(data) == Malformed(CheckFieldLine(data[..idx]).error)
  {
    FirstCrlfUnique(data, IndexCrlf(data).value, idx);
  }

  /** A line with no colon: a trailing space is still reported as an
      invalid header name (that test comes first), and otherwise the line
      is the MissingColon case, the panic of headers.go. */
  lemma ParseLineWithoutColon(data: Bytes, idx: nat)
    requires idx > 0 && FirstCrlf(data, idx) && ':' !in data[..idx]
    ensures ParseLine(data) ==
      if EndsWithSpace(data[..idx]) then Malformed(InvalidHeaderName(data[..idx]))
      else Malformed(MissingColon)
  {
    FirstCrlfUnique(data, IndexCrlf(data).value, idx);
    SplitN2Spec(data[..idx], ':');
    TrimRightSpaceTest(data[..idx]);
  }

  /** Only the bytes up to the first CRLF decide the outcome: appending
      more input after a complete line changes nothing. */
  lemma ParseLineIgnoresRest(data: Bytes, rest: Bytes)
    requires exists i :: CrlfAt(data, i)
    ensures ParseLine(data + rest) == ParseLine(data)
  {
    var idx := IndexCrlf(data).value;
    var whole := data + rest;
    assert FirstCrlf(whole, idx) by {
      assert CrlfAt(whole, idx);
      forall j | 0 <= j < idx ensures !CrlfAt(whole, j) {
        assert !CrlfAt(data, j);
      }
    }
    FirstCrlfUnique(whole, IndexCrlf(whole).value, idx);
    assert whole[..idx] == data[..idx];
  }

  /** Combine keeps every name lower case. */
  lemma CombineKeepsLowerCaseKeys(fields: map<Bytes, Bytes>, key: Bytes, value: Bytes)
    requires LowerCaseKeys(fields)
    ensures LowerCaseKeys(Combine(fields, key, value))
  {
    ToLowerIsLowerCase(key);
  }

  /** Get is case-insensitive: after Set(key, value), a lookup under any
      spelling of key that lowers to the same name finds the new value
      (joined to the old one when the name was present). */
  lemma LookupAfterCombine(fields: map<Bytes, Bytes>, key: Bytes, value: Bytes, probe: Bytes)
    requires ToLower(probe) == ToLower(key)
    ensures ToLower(probe) in Combine(fields, key, value)
    ensures Combine(fields, key, value)[ToLower(probe)] ==
      if ToLower(key) in fields then fields[ToLower(key)] + ", " + value else value
  {
  }

  /** Set applied once per arriving field line, keys[i] with values[i],
      in arrival order. */
  function CombineAll(fields: map<Bytes, Bytes>, keys: seq<Bytes>, values: seq<Bytes>): map<Bytes, Bytes>
    requires |keys| == |values|
  {
    if keys == [] then fields
    else Combine(CombineAll(fields, keys[..|keys| - 1], values[..|values| - 1]), keys[|keys| - 1], values[|values| - 1])
  }

  /** The values of a repeated name joined in arrival order by ", ". */
  function JoinComma(values: seq<Bytes>): Bytes
    requires |values| > 0
  {
    if |values| == 1 then values[0]
    else JoinComma(values[..|values| - 1]) + ", " + values[|values| - 1]
  }

  /** A name that arrives once per value, under spellings that all
      lower-case to name and starting absent, ends up holding all the
      values joined in arrival order by ", "; other names keep their
      entries. */
  lemma {:induction false} CombineAllJoins(fields: map<Bytes, Bytes>, name: Bytes, keys: seq<Bytes>, values: seq<Bytes>)
    requires |keys| == |values| > 0 && name !in fields
    requires forall i :: 0 <= i < |keys| ==> ToLower(keys[i]) == name
    ensures CombineAll(fields, keys, values).Keys == fields.Keys + {name}
    ensures CombineAll(fields, keys, values)[name] == JoinComma(values)
    ensures forall k :: k in fields ==> CombineAll(fields, keys, values)[k] == fields[k]
  {
    if |keys| > 1 {
      var n := |keys| - 1;
      assert forall i :: 0 <= i < n ==> keys[..n][i] == keys[i];
      CombineAllJoins(fields, name, keys[..n], values[..n]);
    }
  }
}
