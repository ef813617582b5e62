/** internal/response/response.go: the status-line table, the default
    header map and the writers of the status line and the header block.

    The io.Writer is a Sink: the bytes it has taken so far, and how many
    more the peer takes before the connection breaks. A write past that
    point delivers what fits and fails. */
module Response {
  import opened ByteStrings
  import opened Decimal
  import Headers

  type StatusCode = int

  const StatusOk: StatusCode := 200
  const StatusBadRequest: StatusCode := 400
  const StatusServerError: StatusCode := 500

  /** The status-line table. No entry ends in CRLF. */
  const StatusLine: map<StatusCode, Bytes> := map[
    StatusOk := "HTTP/1.1 200 OK",
    StatusBadRequest := "HTTP/1.1 400 Bad Request",
    StatusServerError := "HTTP/1.1 500 Internal Server Error"
  ]

  /** StatusLine[code] as Go reads a map: the entry, or "" for a code the
      table lacks. A present entry is the version, a space, the decimal
      code, a space and a reason phrase (section 4 of RFC 9112 without
      the final CRLF); no entry holds a CRLF. */
  function StatusLineText(code: StatusCode): (r: Bytes)
    ensures code !in StatusLine <==> r == []
    ensures code in StatusLine ==> StatusLineForm(r, code)
    ensures forall i :: !CrlfAt(r, i)
  {
    if code in StatusLine then
      StatusLineShape(code);
      StatusLine[code]
    else []
  }

  /** A status line as section 4 of RFC 9112 lays it out, less its CRLF:
      "HTTP/1.1", a space, the three-digit code, a space, a reason phrase,
      and no CRLF anywhere. */
  ghost predicate StatusLineForm(r: Bytes, code: StatusCode) {
    && |r| > 13 && r[..9] == "HTTP/1.1 " && r[9..12] == FormatInt(code) && r[12] == ' '
    && forall i :: !CrlfAt(r, i)
  }

  lemma StatusLineShape(code: StatusCode)
    requires code in StatusLine
    ensures StatusLineForm(StatusLine[code], code)
  {
    if code == 200 {
      OkShape();
    } else if code == 400 {
      BadRequestShape();
    } else {
      ServerErrorShape();
    }
  }

  lemma OkShape() ensures StatusLineForm(StatusLine[200], 200) {
    OkText();
    assert StatusLine[200] == "HTTP/1.1 200 OK";
    assert FormatInt(200) == "200";
    EntryShape(StatusLine[200], 200, "200", "OK");
  }

  lemma BadRequestShape() ensures StatusLineForm(StatusLine[400], 400) {
    BadRequestText();
    assert StatusLine[400] == "HTTP/1.1 400 Bad Request";
    assert FormatInt(400) == "400";
    EntryShape(StatusLine[400], 400, "400", "Bad Request");
  }

  lemma ServerErrorShape() ensures StatusLineForm(StatusLine[500], 500) {
    ServerErrorText();
    assert StatusLine[500] == "HTTP/1.1 500 Internal Server Error";
    assert FormatInt(500) == "500";
    EntryShape(StatusLine[500], 500, "500", "Internal Server Error");
  }

  lemma OkText() ensures "HTTP/1.1 200 OK" == "HTTP/1.1 " + "200" + " " + "OK" {}

  lemma BadRequestText() ensures "HTTP/1.1 400 Bad Request" == "HTTP/1.1 " + "400" + " " + "Bad Request" {}

  lemma ServerErrorText()
    ensures "HTTP/1.1 500 Internal Server Error" == "HTTP/1.1 " + "500" + " " + "Internal Server Error"
  {}

  /** The version, a space, the decimal text of the code in three digits, a
      space and a reason phrase with no CR in it make a status line. */
  lemma EntryShape(r: Bytes, code: StatusCode, digits: Bytes, reason: Bytes)
    requires r == "HTTP/1.1 " + digits + " " + reason
    requires FormatInt(code) == digits && |digits| == 3 && |reason| > 0
    requires CR !in reason
    ensures StatusLineForm(r, code)
  {
    forall i | 0 <= i < |r| ensures r[i] != CR {
      if i >= 13 {
        assert r[i] == reason[i - 13];
      }
    }
  }

  datatype WriteError = ConnectionBroken

  /** What a sequence of writes of out leaves behind: the whole of out and
      no error when it fits in the room the peer had, and otherwise the part
      of out that fits and an error. */
  predicate Sent(before: Bytes, room: nat, out: Bytes, after: Bytes, err: Option<WriteError>) {
    && (err == None <==> |out| <= room)
    && after == before + (if |out| <= room then out else out[..room])
  }

  /** The io.Writer a response is written to. */
  class Sink {
    /** Every byte the peer has received. */
    var written: Bytes
    /** How many more bytes the peer accepts. */
    var room: nat
    /** The argument of every Write call so far, in order. */
    ghost var calls: seq<Bytes>

    constructor (room: nat)
      ensures written == [] && this.room == room && calls == []
    {
      written := [];
      this.room := room;
      calls := [];
    }

    /** io.Writer.Write: delivers p, or the part of it that fits and an error. */
    method Write(p: Bytes) returns (n: nat, err: Option<WriteError>)
      modifies this
      ensures n == if |p| <= old(room) then |p| else old(room)
      ensures Sent(old(written), old(room), p, written, err)
      ensures room == old(room) - n
      ensures calls == old(calls) + [p]
    {
      if |p| <= room {
        n, err := |p|, None;
      } else {
        n, err := room, Some(ConnectionBroken);
      }
      written := written + p[..n];
      room := room - n;
      calls := calls + [p];
    }
  }

  /** WriteStatusLine: one write of the table entry, "" for an unknown code. */
  method WriteStatusLine(w: Sink, code: StatusCode) returns (err: Option<WriteError>)
    modifies w
    ensures Sent(old(w.written), old(w.room), StatusLineText(code), w.written, err)
    ensures w.room + |w.written| == old(w.room) + |old(w.written)|
    ensures w.calls == old(w.calls) + [StatusLineText(code)]
  {
    var _, e := w.Write(StatusLineText(code));
    err := e;
  }

  /** The names and fixed values of the default headers, spelled as the
      map literal of GetDefaultHeaders spells them. */
  const ContentLengthName: Bytes := "Content-Length"
  const ConnectionName: Bytes := "Connection"
  const ContentTypeName: Bytes := "Content-Type"
  const ConnectionClosed: Bytes := "closed"
  const TextPlain: Bytes := "text/plain"

  function DefaultFields(contentLen: int): map<Bytes, Bytes>
  {
    map[ContentLengthName := FormatInt(contentLen), ConnectionName := ConnectionClosed, ContentTypeName := TextPlain]
  }

  /** The default map has exactly three entries: the decimal text of the
      content length, which reads back as that length, the connection
      option "closed" and the type "text/plain". Its keys are not lower
      case, so Get, which lower-cases its argument, finds none of them. */
  lemma DefaultFieldsFacts(contentLen: int)
    ensures DefaultFields(contentLen).Keys == {ContentLengthName, ConnectionName, ContentTypeName}
    ensures |DefaultFields(contentLen)| == 3
    ensures DecimalValue(DefaultFields(contentLen)[ContentLengthName]) == contentLen
    ensures DefaultFields(contentLen)[ConnectionName] == ConnectionClosed
    ensures DefaultFields(contentLen)[ContentTypeName] == TextPlain
    ensures forall k :: ToLower(k) !in DefaultFields(contentLen)
  {
    var m := DefaultFields(contentLen);
    assert "Content-Length" != "Connection" by { assert "Content-Length"[3] != "Connection"[3]; }
    assert "Content-Length" != "Content-Type" by { assert "Content-Length"[8] != "Content-Type"[8]; }
    assert "Connection" != "Content-Type" by { assert "Connection"[3] != "Content-Type"[3]; }
    FormatIntValue(contentLen);
    forall k ensures ToLower(k) !in m {
      ToLowerIsLowerCase(k);
      if |k| > 0 {
        assert !IsUpper(ToLower(k)[0]);
      }
    }
  }

  /** GetDefaultHeaders: the map literal, stored as it is (not through Set). */
  method GetDefaultHeaders(contentLen: int) returns (h: Headers.Headers)
    ensures fresh(h) && h.fields == DefaultFields(contentLen)
  {
    h := new Headers.Headers();
    h.fields := DefaultFields(contentLen);
  }

  /** fmt.Sprintf("%s: %s\r\n", key, value). */
  function FieldLine(key: Bytes, value: Bytes): Bytes {
    key + ": " + value + CRLF
  }

  /** The lines of the entries of fields, in the order of keys. */
  function FieldLines(fields: map<Bytes, Bytes>, keys: seq<Bytes>): Bytes
    requires forall i :: 0 <= i < |keys| ==> keys[i] in fields
  {
    if keys == [] then [] else FieldLine(keys[0], fields[keys[0]]) + FieldLines(fields, keys[1..])
  }

  /** What WriteHeaders sends when the map is visited in the order keys:
      one line per entry and the blank line. */
  function HeaderBlock(fields: map<Bytes, Bytes>, keys: seq<Bytes>): Bytes
    requires forall i :: 0 <= i < |keys| ==> keys[i] in fields
  {
    FieldLines(fields, keys) + CRLF
  }

  predicate Distinct(keys: seq<Bytes>) {
    forall i, j :: 0 <= i < j < |keys| ==> keys[i] != keys[j]
  }

  /** keys lists every key of fields exactly once: one of the orders a Go
      range over the map may take. */
  predicate IsOrdering(keys: seq<Bytes>, fields: map<Bytes, Bytes>) {
    && Distinct(keys)
    && (forall i :: 0 <= i < |keys| ==> keys[i] in fields)
    && (forall k :: k in fields ==> k in keys)
  }

  /** Some order of the elements of a finite set. */
  ghost function Enumerate(s: set<Bytes>): (keys: seq<Bytes>)
    ensures Distinct(keys) && |keys| == |s|
    ensures forall k :: k in keys <==> k in s
  {
    if s == {} then []
    else
      var k :| k in s;
      [k] + Enumerate(s - {k})
  }

  lemma {:induction false} FieldLinesAppend(fields: map<Bytes, Bytes>, a: seq<Bytes>, b: seq<Bytes>)
    requires forall i :: 0 <= i < |a| ==> a[i] in fields
    requires forall i :: 0 <= i < |b| ==> b[i] in fields
    ensures FieldLines(fields, a + b) == FieldLines(fields, a) + FieldLines(fields, b)
  {
    if a == [] {
      assert a + b == b;
    } else {
      assert (a + b)[1..] == a[1..] + b;
      FieldLinesAppend(fields, a[1..], b);
    }
  }

  /** The arguments of the Write calls WriteHeaders makes when it visits
      keys in that order and no write fails: one line per key, then the
      blank line. */
  function Writes(fields: map<Bytes, Bytes>, keys: seq<Bytes>): seq<Bytes>
    requires forall i :: 0 <= i < |keys| ==> keys[i] in fields
  {
    Lines(fields, keys) + [CRLF]
  }

  function Lines(fields: map<Bytes, Bytes>, keys: seq<Bytes>): seq<Bytes>
    requires forall i :: 0 <= i < |keys| ==> keys[i] in fields
  {
    if keys == [] then [] else [FieldLine(keys[0], fields[keys[0]])] + Lines(fields, keys[1..])
  }

  /** The bytes a sequence of writes sends when every write goes through. */
  function Flatten(ws: seq<Bytes>): Bytes {
    if ws == [] then [] else ws[0] + Flatten(ws[1..])
  }

  /** The writes a caller that stops at the first error makes, when the
      peer takes room more bytes: every write up to and including the first
      one that does not fit in what is left. */
  function Attempted(ws: seq<Bytes>, room: nat): seq<Bytes> {
    if ws == [] then []
    else if |ws[0]| <= room then [ws[0]] + Attempted(ws[1..], room - |ws[0]|)
    else [ws[0]]
  }

  /** Attempted is a prefix of the writes: all of them when their bytes fit,
      and otherwise exactly those up to the first write that overflows,
      every earlier one having fit. */
  lemma {:induction false} AttemptedSpec(ws: seq<Bytes>, room: nat)
    ensures |Attempted(ws, room)| <= |ws| && Attempted(ws, room) == ws[..|Attempted(ws, room)|]
    ensures |Flatten(ws)| <= room ==> Attempted(ws, room) == ws
    ensures |Flatten(ws)| > room ==>
      var a := Attempted(ws, room);
      |a| > 0 && |Flatten(a[..|a| - 1])| <= room < |Flatten(a)|
  {
    if ws != [] {
      var a := Attempted(ws, room);
      if |ws[0]| <= room {
        var b := Attempted(ws[1..], room - |ws[0]|);
        AttemptedSpec(ws[1..], room - |ws[0]|);
        assert a == [ws[0]] + b;
        assert (a)[1..] == b;
        if |Flatten(ws)| > room {
          assert a[..|a| - 1] == [ws[0]] + b[..|b| - 1];
          assert ([ws[0]] + b[..|b| - 1])[1..] == b[..|b| - 1];
        }
      } else {
        assert a == [ws[0]];
        assert a[..0] == [];
        assert a[1..] == [];
      }
    }
  }

  /** Writes that all fit are all made, and the caller goes on with the
      room left. */
  lemma {:induction false} AttemptedAppend(a: seq<Bytes>, b: seq<Bytes>, room: nat)
    requires |Flatten(a)| <= room
    ensures Attempted(a + b, room) == a + Attempted(b, room - |Flatten(a)|)
  {
    if a == [] {
      assert a + b == b;
    } else {
      assert (a + b)[1..] == a[1..] + b;
      AttemptedAppend(a[1..], b, room - |a[0]|);
    }
  }

  /** The lines of keys, sent one after another, are FieldLines. */
  lemma {:induction false} FlattenLines(fields: map<Bytes, Bytes>, keys: seq<Bytes>)
    requires forall i :: 0 <= i < |keys| ==> keys[i] in fields
    ensures Flatten(Lines(fields, keys)) == FieldLines(fields, keys)
  {
    if keys != [] {
      FlattenLines(fields, keys[1..]);
      assert ([FieldLine(keys[0], fields[keys[0]])] + Lines(fields, keys[1..]))[1..] == Lines(fields, keys[1..]);
    }
  }

  /** The writes of WriteHeaders send the header block. */
  lemma FlattenWrites(fields: map<Bytes, Bytes>, keys: seq<Bytes>)
    requires forall i :: 0 <= i < |keys| ==> keys[i] in fields
    ensures Flatten(Writes(fields, keys)) == HeaderBlock(fields, keys)
  {
    FlattenAppend(Lines(fields, keys), [CRLF]);
    FlattenLines(fields, keys);
    assert Flatten([CRLF]) == CRLF by {
      assert [CRLF][1..] == [];
    }
  }

  lemma {:induction false} FlattenAppend(a: seq<Bytes>, b: seq<Bytes>)
    ensures Flatten(a + b) == Flatten(a) + Flatten(b)
  {
    if a == [] {
      assert a + b == b;
    } else {
      assert (a + b)[1..] == a[1..] + b;
      FlattenAppend(a[1..], b);
      AppendAssoc(a[0], Flatten(a[1..]), Flatten(b));
    }
  }

  lemma {:induction false} LinesAppend(fields: map<Bytes, Bytes>, a: seq<Bytes>, b: seq<Bytes>)
    requires forall i :: 0 <= i < |a| ==> a[i] in fields
    requires forall i :: 0 <= i < |b| ==> b[i] in fields
    ensures Lines(fields, a + b) == Lines(fields, a) + Lines(fields, b)
  {
    if a == [] {
      assert a + b == b;
    } else {
      assert (a + b)[1..] == a[1..] + b;
      LinesAppend(fields, a[1..], b);
    }
  }

  /** One more line written: the calls of order + [key]. */
  lemma LinesStep(fields: map<Bytes, Bytes>, order: seq<Bytes>, key: Bytes)
    requires forall i :: 0 <= i < |order| ==> order[i] in fields
    requires key in fields
    ensures Lines(fields, order + [key]) == Lines(fields, order) + [FieldLine(key, fields[key])]
  {
    LinesAppend(fields, order, [key]);
    assert Lines(fields, [key]) == [FieldLine(key, fields[key])] by {
      assert [key][1..] == [];
    }
  }

  /** WriteHeaders: one write per map entry, in the map's (unspecified)
      order, then the blank line, stopping at the first failed write. The
      ghost result order is the order the entries were visited in; what the
      peer receives is HeaderBlock for that order, or its prefix that fits
      when a write fails. */
  method WriteHeaders(w: Sink, h: Headers.Headers) returns (err: Option<WriteError>, ghost order: seq<Bytes>)
    modifies w
    ensures IsOrdering(order, h.fields)
    ensures Sent(old(w.written), old(w.room), HeaderBlock(h.fields, order), w.written, err)
    ensures w.room + |w.written| == old(w.room) + |old(w.written)|
    ensures w.calls == old(w.calls) + Attempted(Writes(h.fields, order), old(w.room))
  {
    var fields := h.fields;
    var rest := fields.Keys;
    order := [];
    while rest != {}
      invariant Distinct(order)
      invariant forall i :: 0 <= i < |order| ==> order[i] in fields && order[i] !in rest
      invariant forall k :: k in fields <==> k in rest || k in order
      invariant |FieldLines(fields, order)| <= old(w.room)
      invariant w.written == old(w.written) + FieldLines(fields, order)
      invariant w.room == old(w.room) - |FieldLines(fields, order)|
      invariant w.calls == old(w.calls) + Lines(fields, order)
      decreases rest
    {
      var key :| key in rest;
      var line := FieldLine(key, fields[key]);
      ghost var before := FieldLines(fields, order);
      var _, e := w.Write(line);
      if e.Some? {
        ghost var full := FailedAfter(fields, order, key, rest, old(w.written), old(w.room), w.written);
        AppendAssoc(old(w.calls), Lines(fields, order), [line]);
        return e, full;
      }
      FieldLinesStep(fields, order, key);
      AppendAssoc(old(w.written), before, line);
      LinesStep(fields, order, key);
      AppendAssoc(old(w.calls), Lines(fields, order), [line]);
      VisitStep(fields, order, rest, key);
      order := order + [key];
      rest := rest - {key};
    }
    var _, e := w.Write(CRLF);
    err := e;
    DoneCalls(fields, order, old(w.room));
    AppendAssoc(old(w.calls), Lines(fields, order), [CRLF]);
  }

  /** The first failed write is the line for key: the calls made are the
      lines of the keys before it and that line, and nothing after. */
  lemma FailedCalls(fields: map<Bytes, Bytes>, full: seq<Bytes>, order: seq<Bytes>, key: Bytes, room: nat)
    requires forall i :: 0 <= i < |full| ==> full[i] in fields
    requires |order| < |full| && full[..|order|] == order && full[|order|] == key
    requires |FieldLines(fields, order)| <= room < |FieldLines(fields, order)| + |FieldLine(key, fields[key])|
    ensures Attempted(Writes(fields, full), room) == Lines(fields, order) + [FieldLine(key, fields[key])]
  {
    var suffix := full[|order|..];
    assert full == order + suffix;
    LinesAppend(fields, order, suffix);
    AppendAssoc(Lines(fields, order), Lines(fields, suffix), [CRLF]);
    FlattenLines(fields, order);
    AttemptedAppend(Lines(fields, order), Lines(fields, suffix) + [CRLF], room);
    assert suffix[0] == key;
    assert (Lines(fields, suffix) + [CRLF])[0] == FieldLine(key, fields[key]);
  }

  /** Once every line fits, the blank line is written whether or not it
      fits: all the writes are made. */
  lemma DoneCalls(fields: map<Bytes, Bytes>, order: seq<Bytes>, room: nat)
    requires forall i :: 0 <= i < |order| ==> order[i] in fields
    requires |FieldLines(fields, order)| <= room
    ensures Attempted(Writes(fields, order), room) == Writes(fields, order)
  {
    FlattenLines(fields, order);
    AttemptedAppend(Lines(fields, order), [CRLF], room);
    assert [CRLF][1..] == [];
  }

  /** The keys visited so far, the one whose write failed and the keys
      never reached form an order of the whole map. */
  lemma OrderingCompleted(fields: map<Bytes, Bytes>, order: seq<Bytes>, key: Bytes, rest: set<Bytes>, tail: seq<Bytes>)
    requires Distinct(order) && Distinct(tail)
    requires forall i :: 0 <= i < |order| ==> order[i] in fields && order[i] !in rest
    requires forall k :: k in fields <==> k in rest || k in order
    requires key in rest
    requires forall k :: k in tail <==> k in rest - {key}
    ensures IsOrdering(order + [key] + tail, fields)
  {
    var full := order + [key] + tail;
    forall i, j | 0 <= i < j < |full| ensures full[i] != full[j] {
      if j < |order| {
      } else if j == |order| {
        assert full[i] == order[i];
      } else if i < |order| {
        assert full[j] == tail[j - |order| - 1];
        assert full[j] in tail;
      } else if i == |order| {
        assert full[j] in tail;
      } else {
        assert full[i] == tail[i - |order| - 1] && full[j] == tail[j - |order| - 1];
      }
    }
    forall i | 0 <= i < |full| ensures full[i] in fields {
      if i > |order| {
        assert full[i] == tail[i - |order| - 1];
        assert full[i] in tail;
      }
    }
    forall k | k in fields ensures k in full {
      if k in order {
        var i :| 0 <= i < |order| && order[i] == k;
        assert full[i] == k;
      } else if k == key {
        assert full[|order|] == k;
      } else {
        assert k in tail;
        var i :| 0 <= i < |tail| && tail[i] == k;
        assert full[|order| + 1 + i] == k;
      }
    }
  }

  /** The loop of WriteHeaders visits each key once: moving key from the
      keys still to visit to the visited ones keeps every key of the map in
      exactly one of the two. */
  lemma VisitStep(fields: map<Bytes, Bytes>, order: seq<Bytes>, rest: set<Bytes>, key: Bytes)
    requires Distinct(order)
    requires forall i :: 0 <= i < |order| ==> order[i] in fields && order[i] !in rest
    requires forall k :: k in fields <==> k in rest || k in order
    requires key in rest
    ensures Distinct(order + [key])
    ensures forall i :: 0 <= i < |order + [key]| ==> (order + [key])[i] in fields && (order + [key])[i] !in rest - {key}
    ensures forall k :: k in fields <==> k in rest - {key} || k in order + [key]
  {
  }

  /** One more line: the lines of order + [key] are those of order and
      then the line for key. */
  lemma FieldLinesStep(fields: map<Bytes, Bytes>, order: seq<Bytes>, key: Bytes)
    requires forall i :: 0 <= i < |order| ==> order[i] in fields
    requires key in fields
    ensures FieldLines(fields, order + [key]) == FieldLines(fields, order) + FieldLine(key, fields[key])
  {
    FieldLinesAppend(fields, order, [key]);
    assert FieldLines(fields, [key]) == FieldLine(key, fields[key]);
  }

  /** The loop state of WriteHeaders when the write of the line for key
      fails: some order of the whole map that starts with order and key
      has had just the bytes that fit delivered, and the calls made are
      those a writer stopping at its first error makes for that order. */
  lemma FailedAfter(fields: map<Bytes, Bytes>, order: seq<Bytes>, key: Bytes, rest: set<Bytes>,
                    start: Bytes, room: nat, after: Bytes) returns (full: seq<Bytes>)
    requires Distinct(order)
    requires forall i :: 0 <= i < |order| ==> order[i] in fields && order[i] !in rest
    requires forall k :: k in fields <==> k in rest || k in order
    requires key in rest
    requires |FieldLines(fields, order)| <= room < |FieldLines(fields, order)| + |FieldLine(key, fields[key])|
    requires after == start + FieldLines(fields, order) + FieldLine(key, fields[key])[..room - |FieldLines(fields, order)|]
    ensures IsOrdering(full, fields)
    ensures Sent(start, room, HeaderBlock(fields, full), after, Some(ConnectionBroken))
    ensures Attempted(Writes(fields, full), room) == Lines(fields, order) + [FieldLine(key, fields[key])]
  {
    var tail := Enumerate(rest - {key});
    full := order + [key] + tail;
    OrderingCompleted(fields, order, key, rest, tail);
    assert full[..|order|] == order && full[|order|] == key;
    FailedWrite(fields, full, order, key, start, room, after);
    FailedCalls(fields, full, order, key, room);
  }

  /** A failed write of the line for key, after the lines of order went
      through, leaves what WriteHeaders promises for any order full that
      visits order, then key, then the rest of the map. */
  lemma FailedWrite(fields: map<Bytes, Bytes>, full: seq<Bytes>, order: seq<Bytes>, key: Bytes,
                    start: Bytes, room: nat, after: Bytes)
    requires forall i :: 0 <= i < |full| ==> full[i] in fields
    requires |order| < |full| && full[..|order|] == order && full[|order|] == key
    requires |FieldLines(fields, order)| <= room < |FieldLines(fields, order)| + |FieldLine(key, fields[key])|
    requires after == start + FieldLines(fields, order) + FieldLine(key, fields[key])[..room - |FieldLines(fields, order)|]
    ensures Sent(start, room, HeaderBlock(fields, full), after, Some(ConnectionBroken))
  {
    CutShort(fields, full, |order|, room);
    AppendAssoc(start, FieldLines(fields, order), FieldLine(key, fields[key])[..room - |FieldLines(fields, order)|]);
  }

  /** A write that fails inside the line for keys[n] leaves exactly the
      first room bytes of the whole block delivered. */
  lemma CutShort(fields: map<Bytes, Bytes>, keys: seq<Bytes>, n: nat, room: nat)
    requires forall i :: 0 <= i < |keys| ==> keys[i] in fields
    requires n < |keys|
    requires |FieldLines(fields, keys[..n])| <= room
    requires room < |FieldLines(fields, keys[..n])| + |FieldLine(keys[n], fields[keys[n]])|
    ensures |HeaderBlock(fields, keys)| > room
    ensures HeaderBlock(fields, keys)[..room] ==
      FieldLines(fields, keys[..n]) + FieldLine(keys[n], fields[keys[n]])[..room - |FieldLines(fields, keys[..n])|]
  {
    var before := FieldLines(fields, keys[..n]);
    var line := FieldLine(keys[n], fields[keys[n]]);
    var after := FieldLines(fields, keys[n + 1..]);
    assert keys == keys[..n] + keys[n..];
    FieldLinesAppend(fields, keys[..n], keys[n..]);
    assert keys[n..][1..] == keys[n + 1..];
    assert FieldLines(fields, keys[n..]) == line + after;
    assert HeaderBlock(fields, keys) == before + line + (after + CRLF);
    CutInMiddle(before, line, after + CRLF, room);
  }

  /** Σ (|key| + |value| + 4) over the entries of fields. */
  ghost function FieldsSize(fields: map<Bytes, Bytes>): nat
    decreases |fields|
  {
    if fields == map[] then 0
    else
      var k :| k in fields;
      |k| + |fields[k]| + 4 + FieldsSize(fields - {k})
  }

  /** Any entry may be taken out first. */
  lemma {:induction false} FieldsSizeRemove(fields: map<Bytes, Bytes>, k: Bytes)
    requires k in fields
    ensures FieldsSize(fields) == |k| + |fields[k]| + 4 + FieldsSize(fields - {k})
    decreases |fields|
  {
    var j :| j in fields && FieldsSize(fields) == |j| + |fields[j]| + 4 + FieldsSize(fields - {j});
    if j != k {
      FieldsSizeRemove(fields - {j}, k);
      FieldsSizeRemove(fields - {k}, j);
      assert fields - {j} - {k} == fields - {k} - {j};
    }
  }

  /** The header block is as long as its lines and the blank line,
      whichever order the map is visited in; an empty map gives "\r\n". */
  lemma {:induction false} HeaderBlockLength(fields: map<Bytes, Bytes>, keys: seq<Bytes>)
    requires IsOrdering(keys, fields)
    ensures |HeaderBlock(fields, keys)| == FieldsSize(fields) + 2
    ensures fields == map[] ==> HeaderBlock(fields, keys) == CRLF
  {
    FieldLinesLength(fields, keys);
  }

  lemma {:induction false} FieldLinesLength(fields: map<Bytes, Bytes>, keys: seq<Bytes>)
    requires IsOrdering(keys, fields)
    ensures |FieldLines(fields, keys)| == FieldsSize(fields)
    ensures fields == map[] ==> keys == []
    decreases |keys|
  {
    if keys == [] {
      assert fields == map[];
    } else {
      var k := keys[0];
      var rest := fields - {k};
      assert IsOrdering(keys[1..], rest) by {
        forall i | 0 <= i < |keys[1..]| ensures keys[1..][i] in rest {
          assert keys[1..][i] == keys[i + 1] != keys[0];
        }
        forall j | j in rest ensures j in keys[1..] {
          var i :| 0 <= i < |keys| && keys[i] == j;
          assert i != 0;
          assert keys[1..][i - 1] == j;
        }
      }
      FieldLinesLength(rest, keys[1..]);
      FieldLinesAgree(fields, rest, keys[1..]);
      FieldsSizeRemove(fields, k);
    }
  }

  /** The lines depend only on the entries for the keys listed. */
  lemma {:induction false} FieldLinesAgree(a: map<Bytes, Bytes>, b: map<Bytes, Bytes>, keys: seq<Bytes>)
    requires forall i :: 0 <= i < |keys| ==> keys[i] in a && keys[i] in b && a[keys[i]] == b[keys[i]]
    ensures FieldLines(a, keys) == FieldLines(b, keys)
  {
    if keys != [] {
      FieldLinesAgree(a, b, keys[1..]);
    }
  }
}
