/** Byte strings and the handful of Go library routines over them that the
    header parser and the response writer use: bytes.Index for CRLF,
    bytes.SplitN with a limit of 2, bytes.TrimSpace / strings.TrimSpace,
    strings.TrimRight with a one-byte cutset, strings.ToLower, and the
    character class of the header-name pattern. */
module ByteStrings {

  /** A Go byte. Go's string and []byte are both sequences of these, so one
      type serves for both; a character literal below 256 is a Byte. */
  type Byte = c: char | c as int < 256
  type Bytes = seq<Byte>

  datatype Option<+T> = None | Some(value: T)

  const CR: Byte := '\r'
  const LF: Byte := '\n'
  const CRLF: Bytes := "\r\n"

  /** A CR LF pair starts at position i of s. */
  predicate CrlfAt(s: Bytes, i: int) {
    0 <= i && i + 1 < |s| && s[i] == CR && s[i + 1] == LF
  }

  /** i is where the first CR LF pair of s starts. */
  predicate FirstCrlf(s: Bytes, i: int) {
    CrlfAt(s, i) && forall j :: 0 <= j < i ==> !CrlfAt(s, j)
  }

  /** There is one first CR LF. */
  lemma FirstCrlfUnique(s: Bytes, i: int, j: int)
    requires FirstCrlf(s, i) && FirstCrlf(s, j)
    ensures i == j
  {
  }

  /** A line with no CR in it, followed by CRLF: that CRLF is the first. */
  lemma CrlfAfterLine(line: Bytes, rest: Bytes)
    requires forall j :: 0 <= j < |line| ==> line[j] != CR
    ensures FirstCrlf(line + CRLF + rest, |line|)
    ensures (line + CRLF + rest)[..|line|] == line
  {
    var data := line + CRLF + rest;
    forall j | 0 <= j < |line| ensures !CrlfAt(data, j) {
      assert data[j] == line[j];
    }
  }

  /** Concatenation is associative. */
  lemma AppendAssoc<T>(a: seq<T>, b: seq<T>, c: seq<T>)
    ensures a + b + c == a + (b + c)
  {
  }

  /** A cut inside the middle part of a concatenation keeps the first part
      whole and a prefix of the middle. */
  lemma CutInMiddle(a: Bytes, b: Bytes, c: Bytes, room: nat)
    requires |a| <= room < |a| + |b|
    ensures |a + b + c| > room
    ensures (a + b + c)[..room] == a + b[..room - |a|]
  {
    assert (a + b + c)[..room] == (a + b)[..room];
  }

  /** bytes.Index(s, []byte("\r\n")): the first CR LF at or after k. */
  function IndexCrlfFrom(s: Bytes, k: nat): (r: Option<nat>)
    requires k <= |s|
    ensures r.None? ==> forall i :: k <= i ==> !CrlfAt(s, i)
    ensures r.Some? ==> k <= r.value && CrlfAt(s, r.value)
    ensures r.Some? ==> forall j :: k <= j < r.value ==> !CrlfAt(s, j)
    decreases |s| - k
  {
    if k + 1 >= |s| then None
    else if s[k] == CR && s[k + 1] == LF then Some(k)
    else IndexCrlfFrom(s, k + 1)
  }

  /** bytes.Index(s, []byte("\r\n")), with -1 written as None. */
  function IndexCrlf(s: Bytes): (r: Option<nat>)
    ensures r.None? <==> forall i :: !CrlfAt(s, i)
    ensures r.Some? ==> FirstCrlf(s, r.value)
  {
    IndexCrlfFrom(s, 0)
  }

  /** bytes.Index finds the first CR LF. */
  lemma IndexOfFirstCrlf(s: Bytes, i: nat)
    requires FirstCrlf(s, i)
    ensures IndexCrlf(s) == Some(i)
  {
    FirstCrlfUnique(s, IndexCrlf(s).value, i);
  }

  /** The position of the first b in s at or after k. */
  function IndexByteFrom(s: Bytes, b: Byte, k: nat): (r: Option<nat>)
    requires k <= |s|
    ensures r.Some? ==> k <= r.value < |s|
    decreases |s| - k
  {
    if k == |s| then None
    else if s[k] == b then Some(k)
    else IndexByteFrom(s, b, k + 1)
  }

  lemma {:induction false} IndexByteFromSpec(s: Bytes, b: Byte, k: nat)
    requires k <= |s|
    ensures IndexByteFrom(s, b, k).None? ==> forall i :: k <= i < |s| ==> s[i] != b
    ensures IndexByteFrom(s, b, k).Some? ==> s[IndexByteFrom(s, b, k).value] == b
    ensures IndexByteFrom(s, b, k).Some? ==>
              forall i :: k <= i < IndexByteFrom(s, b, k).value ==> s[i] != b
    decreases |s| - k
  {
    if k < |s| && s[k] != b {
      IndexByteFromSpec(s, b, k + 1);
    }
  }

  /** A b with no b before it from k on is what IndexByteFrom finds. */
  lemma {:induction false} IndexByteFromAt(s: Bytes, b: Byte, k: nat, i: nat)
    requires k <= i < |s| && s[i] == b
    requires forall j :: k <= j < i ==> s[j] != b
    ensures IndexByteFrom(s, b, k) == Some(i)
    decreases i - k
  {
    if k < i {
      IndexByteFromAt(s, b, k + 1, i);
    }
  }

  /** bytes.IndexByte: the position of the first b in s. */
  function IndexByte(s: Bytes, b: Byte): (r: Option<nat>)
    ensures r.Some? ==> r.value < |s|
  {
    IndexByteFrom(s, b, 0)
  }

  /** IndexByte finds the first b, and finds none only when there is none. */
  lemma IndexByteSpec(s: Bytes, b: Byte)
    ensures IndexByte(s, b).None? <==> b !in s
    ensures IndexByte(s, b).Some? ==>
              s[IndexByte(s, b).value] == b && b !in s[..IndexByte(s, b).value]
  {
    IndexByteFromSpec(s, b, 0);
    var r := IndexByte(s, b);
    if r.Some? {
      assert s[r.value] == b;
    }
  }

  /** bytes.SplitN(s, [sep], 2): the part before the first sep and the part
      after it, or s alone when sep does not occur. */
  function SplitN2(s: Bytes, sep: Byte): (parts: seq<Bytes>)
  {
    match IndexByte(s, sep)
    case None => [s]
    case Some(i) =>
      [s[..i], s[i + 1..]]
  }

  /** A sep with none before it is where SplitN2 cuts. */
  lemma SplitN2At(s: Bytes, sep: Byte, i: nat)
    requires i < |s| && s[i] == sep && sep !in s[..i]
    ensures SplitN2(s, sep) == [s[..i], s[i + 1..]]
  {
    forall j | 0 <= j < i ensures s[j] != sep {
      assert s[..i][j] == s[j];
    }
    IndexByteFromAt(s, sep, 0, i);
  }

  /** SplitN2 cuts s at its first sep, or leaves it whole when there is none. */
  lemma SplitN2Spec(s: Bytes, sep: Byte)
    ensures |SplitN2(s, sep)| == 1 || |SplitN2(s, sep)| == 2
    ensures |SplitN2(s, sep)| == 1 <==> sep !in s
    ensures |SplitN2(s, sep)| == 1 ==> SplitN2(s, sep)[0] == s
    ensures |SplitN2(s, sep)| == 2 ==>
              s == SplitN2(s, sep)[0] + [sep] + SplitN2(s, sep)[1] && sep !in SplitN2(s, sep)[0]
  {
    IndexByteSpec(s, sep);
    match IndexByte(s, sep)
    case None =>
    case Some(i) =>
      assert s == s[..i] + [sep] + s[i + 1..];
  }

  /** The ASCII white space that Go's TrimSpace removes. */
  predicate IsSpace(b: Byte) {
    b == ' ' || b == '\t' || b == '\n' || b == '\U{000B}' || b == '\U{000C}' || b == '\r'
  }

  /** The first position at or after i that does not hold white space. */
  function SkipSpace(s: Bytes, i: nat): (r: nat)
    requires i <= |s|
    ensures i <= r <= |s|
    decreases |s| - i
  {
    if i < |s| && IsSpace(s[i]) then SkipSpace(s, i + 1) else i
  }

  lemma {:induction false} SkipSpaceSpec(s: Bytes, i: nat)
    requires i <= |s|
    ensures forall j :: i <= j < SkipSpace(s, i) ==> IsSpace(s[j])
    ensures SkipSpace(s, i) < |s| ==> !IsSpace(s[SkipSpace(s, i)])
    decreases |s| - i
  {
    if i < |s| && IsSpace(s[i]) {
      SkipSpaceSpec(s, i + 1);
    }
  }

  /** The last position at or before j that follows no white space. */
  function SkipSpaceBack(s: Bytes, j: nat): (r: nat)
    requires j <= |s|
    ensures r <= j
  {
    if j > 0 && IsSpace(s[j - 1]) then SkipSpaceBack(s, j - 1) else j
  }

  lemma {:induction false} SkipSpaceBackSpec(s: Bytes, j: nat)
    requires j <= |s|
    ensures forall i :: SkipSpaceBack(s, j) <= i < j ==> IsSpace(s[i])
    ensures SkipSpaceBack(s, j) > 0 ==> !IsSpace(s[SkipSpaceBack(s, j) - 1])
  {
    if j > 0 && IsSpace(s[j - 1]) {
      SkipSpaceBackSpec(s, j - 1);
    }
  }

  /** Leading white space removed: the longest suffix of s not starting with it. */
  function TrimLeftSpace(s: Bytes): (r: Bytes)
  {
    s[SkipSpace(s, 0)..]
  }

  lemma TrimLeftSpaceSpec(s: Bytes)
    ensures |TrimLeftSpace(s)| <= |s| && TrimLeftSpace(s) == s[|s| - |TrimLeftSpace(s)|..]
    ensures forall i :: 0 <= i < |s| - |TrimLeftSpace(s)| ==> IsSpace(s[i])
    ensures TrimLeftSpace(s) != [] ==> !IsSpace(TrimLeftSpace(s)[0])
  {
    SkipSpaceSpec(s, 0);
  }

  /** Trailing white space removed: the longest prefix of s not ending in it. */
  function TrimRightSpace(s: Bytes): (r: Bytes)
  {
    s[..SkipSpaceBack(s, |s|)]
  }

  lemma TrimRightSpaceSpec(s: Bytes)
    ensures |TrimRightSpace(s)| <= |s| && TrimRightSpace(s) == s[..|TrimRightSpace(s)|]
    ensures forall i :: |TrimRightSpace(s)| <= i < |s| ==> IsSpace(s[i])
    ensures TrimRightSpace(s) != [] ==> !IsSpace(TrimRightSpace(s)[|TrimRightSpace(s)| - 1])
  {
    SkipSpaceBackSpec(s, |s|);
  }

  /** bytes.TrimSpace and strings.TrimSpace, restricted to ASCII white space. */
  function TrimSpace(s: Bytes): (r: Bytes)
  {
    var t := TrimLeftSpace(s);
    TrimRightSpace(t)
  }

  /** TrimSpace keeps the slice of s that starts at its first byte that is
      not white space and neither starts nor ends with white space; every
      byte cut on either side is white space. */
  lemma TrimSpaceSpec(s: Bytes)
    ensures SkipSpace(s, 0) + |TrimSpace(s)| <= |s|
    ensures TrimSpace(s) == s[SkipSpace(s, 0)..SkipSpace(s, 0) + |TrimSpace(s)|]
    ensures forall i :: 0 <= i < SkipSpace(s, 0) ==> IsSpace(s[i])
    ensures forall i :: SkipSpace(s, 0) + |TrimSpace(s)| <= i < |s| ==> IsSpace(s[i])
    ensures TrimSpace(s) != [] ==> !IsSpace(TrimSpace(s)[0]) && !IsSpace(TrimSpace(s)[|TrimSpace(s)| - 1])
  {
    var t := TrimLeftSpace(s);
    var r := TrimRightSpace(t);
    var k := SkipSpace(s, 0);
    SkipSpaceSpec(s, 0);
    TrimRightSpaceSpec(t);
    assert t == s[k..];
    assert r == s[k..k + |r|];
    forall i | k + |r| <= i < |s| ensures IsSpace(s[i]) {
      assert s[i] == t[i - k];
    }
    if r != [] {
      assert r[0] == t[0];
    }
  }

  /** The last position at or before j that does not follow a c. */
  function SkipByteBack(s: Bytes, c: Byte, j: nat): (r: nat)
    requires j <= |s|
    ensures r <= j
  {
    if j > 0 && s[j - 1] == c then SkipByteBack(s, c, j - 1) else j
  }

  lemma {:induction false} SkipByteBackSpec(s: Bytes, c: Byte, j: nat)
    requires j <= |s|
    ensures forall i :: SkipByteBack(s, c, j) <= i < j ==> s[i] == c
    ensures SkipByteBack(s, c, j) > 0 ==> s[SkipByteBack(s, c, j) - 1] != c
  {
    if j > 0 && s[j - 1] == c {
      SkipByteBackSpec(s, c, j - 1);
    }
  }

  /** strings.TrimRight(s, string(c)): every trailing c removed. */
  function TrimRightByte(s: Bytes, c: Byte): (r: Bytes)
  {
    s[..SkipByteBack(s, c, |s|)]
  }

  lemma TrimRightByteSpec(s: Bytes, c: Byte)
    ensures |TrimRightByte(s, c)| <= |s| && TrimRightByte(s, c) == s[..|TrimRightByte(s, c)|]
    ensures forall i :: |TrimRightByte(s, c)| <= i < |s| ==> s[i] == c
    ensures TrimRightByte(s, c) != [] ==> TrimRightByte(s, c)[|TrimRightByte(s, c)| - 1] != c
  {
    SkipByteBackSpec(s, c, |s|);
  }

  /** s is not empty and its last byte is a space. */
  predicate EndsWithSpace(s: Bytes) {
    |s| > 0 && s[|s| - 1] == ' '
  }

  predicate IsUpper(b: Byte) {
    'A' <= b <= 'Z'
  }

  function ToLowerByte(b: Byte): (r: Byte)
  {
    if IsUpper(b) then (b as int + 32) as char else b
  }

  /** strings.ToLower, restricted to ASCII letters. */
  function ToLower(s: Bytes): (r: Bytes)
    ensures |r| == |s|
    ensures forall i :: 0 <= i < |s| ==> r[i] == ToLowerByte(s[i])
  {
    seq(|s|, i requires 0 <= i < |s| => ToLowerByte(s[i]))
  }

  /** s has no upper-case ASCII letter. */
  predicate IsLowerCase(s: Bytes) {
    forall i :: 0 <= i < |s| ==> !IsUpper(s[i])
  }

  /** `tchar` of section 5.6.2 of RFC 9110: the characters of the pattern
      [A-Za-z0-9!#$%&'*+\-.^_`|~]. */
  predicate IsTchar(b: Byte) {
    || ('a' <= b <= 'z') || ('A' <= b <= 'Z') || ('0' <= b <= '9')
    || b == '!' || b == '#' || b == '$' || b == '%' || b == '&' || b == '\'' || b == '*'
    || b == '+' || b == '-' || b == '.' || b == '^' || b == '_' || b == '`' || b == '|' || b == '~'
  }

  /** isValidKey: a non-empty token, every byte a tchar. */
  predicate IsValidKey(s: Bytes) {
    |s| > 0 && forall i :: 0 <= i < |s| ==> IsTchar(s[i])
  }

  /** Lower-casing gives a string with no upper-case letter, and does
      nothing more to a string that has none. */
  lemma ToLowerIsLowerCase(s: Bytes)
    ensures IsLowerCase(ToLower(s))
    ensures IsLowerCase(s) <==> ToLower(s) == s
    ensures ToLower(ToLower(s)) == ToLower(s)
  {
    if !IsLowerCase(s) {
      var i :| 0 <= i < |s| && IsUpper(s[i]);
      assert ToLower(s)[i] != s[i];
    }
  }

  /** No tchar is a colon or white space. */
  lemma TcharIsNotDelimiter(b: Byte)
    requires IsTchar(b)
    ensures b != ':' && !IsSpace(b)
  {
  }

  /** A token contains no colon, no white space (so no CR or LF) and is
      unchanged by trimming. */
  lemma ValidKeyHasNoDelimiters(s: Bytes)
    requires IsValidKey(s)
    ensures ':' !in s
    ensures forall i :: 0 <= i < |s| ==> !IsSpace(s[i])
    ensures !EndsWithSpace(s)
    ensures TrimSpace(s) == s
    ensures TrimRightByte(s, ' ') == s
  {
    forall i | 0 <= i < |s| ensures s[i] != ':' && !IsSpace(s[i]) {
      TcharIsNotDelimiter(s[i]);
    }
    TrimSpaceOfTrimmed(s);
  }

  /** A token stays a token under lower-casing. */
  lemma ToLowerKeepsValidKey(s: Bytes)
    requires IsValidKey(s)
    ensures IsValidKey(ToLower(s))
  {
    forall i | 0 <= i < |s| ensures IsTchar(ToLower(s)[i]) {
      assert IsTchar(s[i]);
    }
  }

  /** Trimming leaves a string that neither starts nor ends with white
      space as it is. */
  lemma TrimSpaceOfTrimmed(s: Bytes)
    requires s == [] || (!IsSpace(s[0]) && !IsSpace(s[|s| - 1]))
    ensures TrimSpace(s) == s
  {
  }
}
