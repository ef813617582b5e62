/** The header block written by WriteHeaders, read back by calling Parse
    once per line on the unconsumed input, as a request parser does. */
module RoundTrip {
  import opened ByteStrings
  import opened Decimal
  import opened Headers
  import opened Response

  /** Where a run of Parse calls stops: at the blank line, for want of
      data, or at a bad line. consumed counts the bytes the calls consumed;
      fields is the map they built. */
  datatype Block =
    | Complete(fields: map<Bytes, Bytes>, consumed: nat)
    | Incomplete(fields: map<Bytes, Bytes>, consumed: nat)
    | Failed(error: ParseError, consumed: nat)

  /** Parse called on data, then again on what it left, advancing by n
      each time, with each stored field merged into fields as Set does. */
  function ParseBlock(data: Bytes, fields: map<Bytes, Bytes>): (r: Block)
    ensures r.consumed <= |data|
    decreases |data|
  {
    match ParseLine(data)
    case NeedMore => Incomplete(fields, 0)
    case EndOfBlock => Complete(fields, 2)
    case Malformed(e) => Failed(e, 0)
    case Field(name, value, n) =>
      ParseLineField(data);
      var r := ParseBlock(data[n..], Combine(fields, name, value));
      r.(consumed := r.consumed + n)
  }

  /** A stored field: the rest of the block is read from just past it. */
  lemma ParseBlockStep(data: Bytes, fields: map<Bytes, Bytes>, name: Bytes, value: Bytes, n: nat)
    requires ParseLine(data) == Field(name, value, n)
    ensures n <= |data|
    ensures ParseBlock(data, fields).Complete? == ParseBlock(data[n..], Combine(fields, name, value)).Complete?
    ensures ParseBlock(data, fields).consumed == ParseBlock(data[n..], Combine(fields, name, value)).consumed + n
    ensures ParseBlock(data, fields).Complete? ==>
      ParseBlock(data, fields).fields == ParseBlock(data[n..], Combine(fields, name, value)).fields
  {
  }

  /** A value that survives the trip: no CR or LF, no white space at
      either end. */
  predicate CleanValue(v: Bytes) {
    && (forall i :: 0 <= i < |v| ==> v[i] != CR && v[i] != LF)
    && (v == [] || (!IsSpace(v[0]) && !IsSpace(v[|v| - 1])))
  }

  /** A map whose block reads back: token keys, distinct after
      lower-casing, and clean values. */
  ghost predicate WireSafe(m: map<Bytes, Bytes>) {
    && (forall k :: k in m ==> IsValidKey(k) && CleanValue(m[k]))
    && (forall k1, k2 :: k1 in m && k2 in m && ToLower(k1) == ToLower(k2) ==> k1 == k2)
  }

  lemma TrimOneSpace(v: Bytes)
    requires CleanValue(v)
    ensures TrimSpace([' '] + v) == v
  {
    var s := [' '] + v;
    assert s[1..] == v;
    assert SkipSpace(s, 0) == SkipSpace(s, 1) == 1;
    assert SkipSpace(v, 0) == 0;
    TrimSpaceOfTrimmed(v);
  }

  /** A field line without its CRLF. */
  function FieldText(key: Bytes, value: Bytes): (r: Bytes)
    ensures FieldLine(key, value) == r + CRLF
    ensures |r| == |key| + |value| + 2
  {
    key + ": " + value
  }

  /** The text of a field line has no CR when neither the name nor the
      value has one. */
  lemma FieldTextHasNoCr(key: Bytes, value: Bytes)
    requires forall i :: 0 <= i < |key| ==> key[i] != CR
    requires forall i :: 0 <= i < |value| ==> value[i] != CR
    ensures forall j :: 0 <= j < |FieldText(key, value)| ==> FieldText(key, value)[j] != CR
  {
    var line := FieldText(key, value);
    forall j | 0 <= j < |line| ensures line[j] != CR {
      if j < |key| {
        assert line[j] == key[j];
      } else if j >= |key| + 2 {
        assert line[j] == value[j - |key| - 2];
      }
    }
  }

  /** A written line is its text, then CRLF. */
  lemma FieldLineLayout(key: Bytes, value: Bytes, rest: Bytes)
    ensures var data := FieldLine(key, value) + rest;
      && data == FieldText(key, value) + CRLF + rest
      && data[..|key| + |value| + 2] == FieldText(key, value)
  {
    var line := FieldText(key, value);
    var data := FieldLine(key, value) + rest;
    assert data == line + CRLF + rest;
    assert data[..|line|] == line;
  }

  /** The CRLF that ends a written line is the first in the input, and
      what comes before it is the line's text. */
  lemma WrittenLineCrlf(key: Bytes, value: Bytes, rest: Bytes)
    requires IsValidKey(key) && CleanValue(value)
    ensures FirstCrlf(FieldLine(key, value) + rest, |key| + |value| + 2)
    ensures (FieldLine(key, value) + rest)[..|key| + |value| + 2] == FieldText(key, value)
  {
    ValidKeyHasNoDelimiters(key);
    FieldTextHasNoCr(key, value);
    FieldLineLayout(key, value, rest);
    CrlfAfterLine(FieldText(key, value), rest);
  }

  /** The text of a written line splits at the colon after the key. */
  lemma SplitFieldText(key: Bytes, value: Bytes)
    requires ':' !in key
    ensures SplitN2(FieldText(key, value), ':') == [key, [' '] + value]
  {
    var line := FieldText(key, value);
    assert line == key + [':'] + ([' '] + value);
    assert line[|key|] == ':' && line[..|key|] == key;
    SplitN2At(line, ':', |key|);
  }

  /** The checks of one line accept a written line's text and give back
      its key and value. */
  lemma ParseFieldText(key: Bytes, value: Bytes)
    requires IsValidKey(key) && CleanValue(value)
    ensures CheckFieldLine(FieldText(key, value)) == Accepted(key, value)
  {
    ValidKeyHasNoDelimiters(key);
    SplitFieldText(key, value);
    TrimOneSpace(value);
  }

  /** Input whose first CRLF follows a line that the checks accept parses
      as that line's field. */
  lemma ParseTextBeforeCrlf(data: Bytes, idx: nat, text: Bytes, key: Bytes, value: Bytes)
    requires idx > 0 && FirstCrlf(data, idx) && data[..idx] == text
    requires CheckFieldLine(text) == Accepted(key, value)
    ensures ParseLine(data) == Field(key, value, idx + 2)
  {
    ParseLineAtCrlf(data, idx);
  }

  /** A written line, whatever follows it, parses as its field. */
  lemma ParseWrittenLine(key: Bytes, value: Bytes, rest: Bytes)
    requires IsValidKey(key) && CleanValue(value)
    ensures ParseLine(FieldLine(key, value) + rest) == Field(key, value, |key| + |value| + 4)
  {
    WrittenLineCrlf(key, value, rest);
    ParseFieldText(key, value);
    ParseTextBeforeCrlf(FieldLine(key, value) + rest, |key| + |value| + 2, FieldText(key, value), key, value);
  }

  /** Reading the block written for keys: the first line is stored and the
      rest is read from just past it. */
  lemma BlockStep(m: map<Bytes, Bytes>, keys: seq<Bytes>, acc: map<Bytes, Bytes>)
    requires WireSafe(m) && keys != [] && forall i :: 0 <= i < |keys| ==> keys[i] in m
    ensures var k := keys[0];
      var r := ParseBlock(HeaderBlock(m, keys), acc);
      var r' := ParseBlock(HeaderBlock(m, keys[1..]), Combine(acc, k, m[k]));
      && |HeaderBlock(m, keys)| == |k| + |m[k]| + 4 + |HeaderBlock(m, keys[1..])|
      && r.Complete? == r'.Complete?
      && r.consumed == r'.consumed + |k| + |m[k]| + 4
      && (r.Complete? ==> r.fields == r'.fields)
  {
    var k := keys[0];
    var data := HeaderBlock(m, keys);
    assert data == FieldLine(k, m[k]) + HeaderBlock(m, keys[1..]);
    ParseWrittenLine(k, m[k], HeaderBlock(m, keys[1..]));
    var n := |k| + |m[k]| + 4;
    assert data[n..] == HeaderBlock(m, keys[1..]);
    ParseBlockStep(data, acc, k, m[k], n);
  }

  /** The tail of a list of distinct elements is one too, without the head. */
  lemma DistinctTail(keys: seq<Bytes>)
    requires Distinct(keys) && keys != []
    ensures Distinct(keys[1..]) && keys[0] !in keys[1..]
    ensures forall k :: k in keys <==> k == keys[0] || k in keys[1..]
  {
    var tail := keys[1..];
    assert keys == [keys[0]] + tail;
    forall i, j | 0 <= i < j < |tail| ensures tail[i] != tail[j] {
      assert tail[i] == keys[i + 1] && tail[j] == keys[j + 1];
    }
  }

  /** The lines written for keys, parsed after the fields acc, are all
      stored: the parse reaches the blank line and consumes the block. */
  lemma {:induction false} LinesComplete(m: map<Bytes, Bytes>, keys: seq<Bytes>, acc: map<Bytes, Bytes>)
    requires WireSafe(m) && forall i :: 0 <= i < |keys| ==> keys[i] in m
    ensures var r := ParseBlock(HeaderBlock(m, keys), acc);
      r.Complete? && r.consumed == |HeaderBlock(m, keys)|
    decreases |keys|
  {
    if keys == [] {
      assert HeaderBlock(m, keys) == CRLF;
      assert CrlfAt(CRLF, 0);
    } else {
      LinesComplete(m, keys[1..], Combine(acc, keys[0], m[keys[0]]));
      BlockStep(m, keys, acc);
    }
  }

  /** The map the lines written for keys build on top of acc: each key's
      lower-cased name holds its value, acc's entries stay, and nothing
      else is added. */
  lemma {:induction false} LinesRoundTrip(m: map<Bytes, Bytes>, keys: seq<Bytes>, acc: map<Bytes, Bytes>)
    requires WireSafe(m)
    requires Distinct(keys) && forall k :: k in keys ==> k in m
    requires forall k :: k in keys ==> ToLower(k) !in acc
    ensures ParseBlock(HeaderBlock(m, keys), acc).Complete?
    ensures var r := ParseBlock(HeaderBlock(m, keys), acc);
      && |r.fields| == |acc| + |keys|
      && (forall k :: k in acc ==> k in r.fields && r.fields[k] == acc[k])
      && (forall k :: k in keys ==> ToLower(k) in r.fields && r.fields[ToLower(k)] == m[k])
      && (forall x :: x in r.fields ==> x in acc || exists k :: k in keys && x == ToLower(k))
    decreases |keys|
  {
    LinesComplete(m, keys, acc);
    if keys != [] {
      var k := keys[0];
      var tail := keys[1..];
      DistinctTail(keys);
      var acc' := Combine(acc, k, m[k]);
      assert |acc'| == |acc| + 1 by {
        assert acc'.Keys == acc.Keys + {ToLower(k)};
      }
      forall k' | k' in tail ensures ToLower(k') !in acc' {
        assert k' != k;
      }
      LinesRoundTrip(m, tail, acc');
      BlockStep(m, keys, acc);
    }
  }

  /** A list of distinct elements is as long as the set they form. */
  lemma {:induction false} DistinctLength(keys: seq<Bytes>, s: set<Bytes>)
    requires Distinct(keys) && forall k :: k in s <==> k in keys
    ensures |keys| == |s|
  {
    if keys != [] {
      var tail := keys[1..];
      forall k ensures k in s - {keys[0]} <==> k in tail {
        if k in tail {
          var i :| 0 <= i < |tail| && tail[i] == k;
          assert keys[i + 1] == k;
        }
        if k in keys && k != keys[0] {
          var i :| 0 <= i < |keys| && keys[i] == k;
          assert tail[i - 1] == k;
        }
      }
      DistinctLength(tail, s - {keys[0]});
    }
  }

  /** The round trip: for a map with token keys that differ after
      lower-casing and with clean values, whatever order WriteHeaders
      visits it in, calling Parse on its output until done rebuilds the map
      with lower-cased keys (as many entries as the map, each key's
      lower-cased name holding its value), and the calls consume the whole
      output, which is Σ(|key| + |value| + 4) + 2 bytes long. */
  lemma RoundTrip(m: map<Bytes, Bytes>, order: seq<Bytes>)
    requires WireSafe(m) && IsOrdering(order, m)
    ensures var r := ParseBlock(HeaderBlock(m, order), map[]);
      && r.Complete?
      && r.consumed == |HeaderBlock(m, order)| == FieldsSize(m) + 2
      && |r.fields| == |m|
      && (forall k :: k in m ==> ToLower(k) in r.fields && r.fields[ToLower(k)] == m[k])
      && (forall x :: x in r.fields ==> exists k :: k in m && x == ToLower(k))
  {
    ReadBackComplete(m, order);
    HeaderBlockLength(m, order);
    ReadBackSize(m, order);
    ReadBackValues(m, order);
    ReadBackNothingElse(m, order);
  }

  /** The parse reaches the blank line and consumes the whole block. */
  lemma ReadBackComplete(m: map<Bytes, Bytes>, order: seq<Bytes>)
    requires WireSafe(m) && IsOrdering(order, m)
    ensures var r := ParseBlock(HeaderBlock(m, order), map[]);
      r.Complete? && r.consumed == |HeaderBlock(m, order)|
  {
    LinesComplete(m, order, map[]);
  }

  /** The map read back has as many entries as the map written. */
  lemma ReadBackSize(m: map<Bytes, Bytes>, order: seq<Bytes>)
    requires WireSafe(m) && IsOrdering(order, m)
    ensures var r := ParseBlock(HeaderBlock(m, order), map[]);
      r.Complete? && |r.fields| == |m|
  {
    LinesRoundTrip(m, order, map[]);
    DistinctLength(order, m.Keys);
  }

  /** Each key's lower-cased name holds its value. */
  lemma ReadBackValues(m: map<Bytes, Bytes>, order: seq<Bytes>)
    requires WireSafe(m) && IsOrdering(order, m)
    ensures var r := ParseBlock(HeaderBlock(m, order), map[]);
      r.Complete? && forall k :: k in m ==> ToLower(k) in r.fields && r.fields[ToLower(k)] == m[k]
  {
    LinesRoundTrip(m, order, map[]);
  }

  /** Every name read back is some key lower-cased. */
  lemma ReadBackNothingElse(m: map<Bytes, Bytes>, order: seq<Bytes>)
    requires WireSafe(m) && IsOrdering(order, m)
    ensures var r := ParseBlock(HeaderBlock(m, order), map[]);
      r.Complete? && forall x :: x in r.fields ==> exists k :: k in m && x == ToLower(k)
  {
    LinesRoundTrip(m, order, map[]);
    var r := ParseBlock(HeaderBlock(m, order), map[]);
    forall x | x in r.fields ensures exists k :: k in m && x == ToLower(k) {
      var k :| k in order && x == ToLower(k);
    }
  }

  /** The lower-cased default names. */
  const ContentLengthLower: Bytes := "content-length"
  const ConnectionLower: Bytes := "connection"
  const ContentTypeLower: Bytes := "content-type"

  /** The three default names are tokens and lower-case to three
      distinct names. */
  lemma DefaultNames()
    ensures IsValidKey(ContentLengthName) && IsValidKey(ConnectionName) && IsValidKey(ContentTypeName)
    ensures ToLower(ContentLengthName) == ContentLengthLower
    ensures ToLower(ConnectionName) == ConnectionLower
    ensures ToLower(ContentTypeName) == ContentTypeLower
    ensures ContentLengthLower != ConnectionLower && ContentLengthLower != ContentTypeLower && ConnectionLower != ContentTypeLower
  {
    assert ToLower("Content-Length") == "content-length";
    assert ToLower("Connection") == "connection";
    assert ToLower("Content-Type") == "content-type";
    assert "content-length"[8] != "content-type"[8] && "connection"[3] != "content-type"[3];
    assert "content-length"[3] != "connection"[3];
  }

  /** The default values are clean. */
  lemma DefaultValues(contentLen: int)
    ensures CleanValue(FormatInt(contentLen)) && CleanValue(ConnectionClosed) && CleanValue(TextPlain)
  {
    var v := FormatInt(contentLen);
    forall i | 0 <= i < |v| ensures v[i] != CR && v[i] != LF {
      assert IsDigit(v[i]) || v[i] == '-';
    }
  }

  /** The default map is one whose block reads back. */
  lemma DefaultFieldsWireSafe(contentLen: int)
    ensures WireSafe(DefaultFields(contentLen))
  {
    var m := DefaultFields(contentLen);
    DefaultFieldsFacts(contentLen);
    DefaultNames();
    DefaultValues(contentLen);
    assert m.Keys == {ContentLengthName, ConnectionName, ContentTypeName};
    forall k | k in m ensures IsValidKey(k) && CleanValue(m[k]) {
    }
    forall k1, k2 | k1 in m && k2 in m && ToLower(k1) == ToLower(k2) ensures k1 == k2 {
    }
  }

  /** A map built from a three-entry map by lower-casing its keys, with
      nothing else added, is the map of the three lower-cased entries. */
  lemma LoweredThree(m: map<Bytes, Bytes>, f: map<Bytes, Bytes>, a: Bytes, b: Bytes, c: Bytes,
                      la: Bytes, lb: Bytes, lc: Bytes, va: Bytes, vb: Bytes, vc: Bytes)
    requires m == map[a := va, b := vb, c := vc]
    requires ToLower(a) == la && ToLower(b) == lb && ToLower(c) == lc
    requires la != lb && la != lc && lb != lc
    requires forall k :: k in m ==> ToLower(k) in f && f[ToLower(k)] == m[k]
    requires forall x :: x in f ==> exists k :: k in m && x == ToLower(k)
    ensures f == map[la := va, lb := vb, lc := vc]
  {
    assert a in m && b in m && c in m;
    assert a != b && a != c && b != c;
    forall x | x in f ensures x == la || x == lb || x == lc {
      var k :| k in m && x == ToLower(k);
    }
  }

  /** The default headers survive the trip: whatever the order, reading
      them back gives the three lower-cased names with their values. */
  lemma DefaultHeadersRoundTrip(contentLen: int, order: seq<Bytes>)
    requires IsOrdering(order, DefaultFields(contentLen))
    ensures ParseBlock(HeaderBlock(DefaultFields(contentLen), order), map[]) ==
      Complete(map[ContentLengthLower := FormatInt(contentLen), ConnectionLower := ConnectionClosed, ContentTypeLower := TextPlain],
               |HeaderBlock(DefaultFields(contentLen), order)|)
  {
    var m := DefaultFields(contentLen);
    DefaultFieldsWireSafe(contentLen);
    DefaultNames();
    RoundTrip(m, order);
    var r := ParseBlock(HeaderBlock(m, order), map[]);
    LoweredThree(m, r.fields, ContentLengthName, ConnectionName, ContentTypeName,
                 ContentLengthLower, ConnectionLower, ContentTypeLower, FormatInt(contentLen), ConnectionClosed, TextPlain);
  }
}
