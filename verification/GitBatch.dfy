/** The reader of the `git cat-file --batch` stream in xtask/src/migrations.rs. */
module GitBatch {
  import opened Text

  type Byte = b: int | 0 <= b < 256
  type Bytes = seq<Byte>

  const NEWLINE: Byte := 10
  const SPACE: Byte := 32
  const PLUS: Byte := 43
  const BLOB: Bytes := [98, 108, 111, 98]
  const LIMIT: nat := 134_217_728

  // ---------------------------------------------------------------- the code

  predicate IsWhite(b: Byte) {
    9 <= b <= 13 || b == SPACE
  }

  predicate IsDigit(b: Byte) {
    48 <= b <= 57
  }

  /** One past the first newline, or the end of the stream. */
  function LineEnd(s: Bytes): (n: nat)
    ensures n <= |s|
  {
    if s == [] then 0 else if s[0] == NEWLINE then 1 else 1 + LineEnd(s[1..])
  }

  function TrimEndBytes(s: Bytes): Bytes {
    if s != [] && IsWhite(s[|s| - 1]) then TrimEndBytes(s[..|s| - 1]) else s
  }

  function FirstSpace(s: Bytes): (k: nat)
    ensures k <= |s|
    ensures k < |s| ==> s[k] == SPACE
    ensures forall i :: 0 <= i < k ==> s[i] != SPACE
  {
    if s == [] || s[0] == SPACE then 0 else 1 + FirstSpace(s[1..])
  }

  /** `split(' ')` */
  function Fields(s: Bytes): seq<Bytes>
    decreases |s|
  {
    var k := FirstSpace(s);
    if k == |s| then [s] else [s[..k]] + Fields(s[k + 1..])
  }

  predicate Digits(s: Bytes) {
    s != [] && forall i :: 0 <= i < |s| ==> IsDigit(s[i])
  }

  function Number(s: Bytes): nat
    requires forall i :: 0 <= i < |s| ==> IsDigit(s[i])
  {
    if s == [] then 0
    else
      assert IsDigit(s[|s| - 1]);
      10 * Number(s[..|s| - 1]) + (s[|s| - 1] as int - 48)
  }

  /** `parse::<usize>()` followed by the size limit, which is far below the type's maximum. */
  function ParseSize(s: Bytes): Option<nat> {
    var digits := if |s| > 1 && s[0] == PLUS then s[1..] else s;
    if Digits(digits) && Number(digits) <= LIMIT then Some(Number(digits)) else None
  }

  function ParseHeader(line: Bytes, oid: Bytes): Option<nat> {
    var f := Fields(TrimEndBytes(line));
    if |f| == 3 && f[0] == oid && f[1] == BLOB then ParseSize(f[2]) else None
  }

  datatype Read = Read(blob: Bytes, rest: Bytes)

  function ReadOne(oid: Bytes, s: Bytes): (r: Option<Read>)
    ensures r.Some? ==> |r.value.rest| < |s|
  {
    var n := LineEnd(s);
    match ParseHeader(s[..n], oid)
    case None => None
    case Some(size) => TakeBlob(s[n..], size)
  }

  /** `read_exact` of the blob, then of the separator. */
  function TakeBlob(s: Bytes, size: nat): (r: Option<Read>)
    ensures r.Some? ==> |r.value.rest| < |s|
  {
    if |s| < size + 1 || s[size] != NEWLINE then None
    else Some(Read(s[..size], s[size + 1..]))
  }

  datatype ReadMany = ReadMany(blobs: seq<Bytes>, rest: Bytes)

  function ReadAll(oids: seq<Bytes>, s: Bytes): Option<ReadMany> {
    if oids == [] then Some(ReadMany([], s))
    else
      match ReadOne(oids[0], s)
      case None => None
      case Some(r) =>
        match ReadAll(oids[1..], r.rest)
        case None => None
        case Some(m) => Some(ReadMany([r.blob] + m.blobs, m.rest))
  }

  /** The loop over the tree entries, reading from one shared position. */
  method ReadBlobs(oids: seq<Bytes>, stream: Bytes) returns (blobs: Option<seq<Bytes>>, pos: nat)
    ensures pos <= |stream|
    ensures blobs.None? <==> ReadAll(oids, stream).None?
    ensures blobs.Some? ==> ReadAll(oids, stream) == Some(ReadMany(blobs.value, stream[pos..]))
  {
    var done: seq<Bytes> := [];
    pos := 0;
    AfterNothing(oids, stream);
    for i := 0 to |oids|
      invariant pos <= |stream|
      invariant ReadAll(oids, stream) == After(done, ReadAll(oids[i..], stream[pos..]))
    {
      assert oids[i..][0] == oids[i] && oids[i..][1..] == oids[i + 1..];
      var bytes, next := ReadBlob(oids[i], stream, pos);
      if bytes.None? { return None, pos; }
      AfterAssoc(done, bytes.value, ReadAll(oids[i + 1..], stream[next..]));
      done := done + [bytes.value];
      pos := next;
    }
    assert oids[|oids|..] == [];
    assert done + [] == done;
    blobs := Some(done);
  }

  method ReadBlob(oid: Bytes, stream: Bytes, pos: nat) returns (bytes: Option<Bytes>, next: nat)
    requires pos <= |stream|
    ensures next <= |stream|
    ensures ReadOne(oid, stream[pos..])
         == if bytes.None? then None else Some(Read(bytes.value, stream[next..]))
  {
    var rest := stream[pos..];
    var n := LineEnd(rest);
    var size := ParseHeader(rest[..n], oid);
    if size.None? { return None, pos; }
    var body := rest[n..];
    if |body| < size.value + 1 || body[size.value] != NEWLINE { return None, pos; }
    next := pos + n + size.value + 1;
    assert body[size.value + 1..] == stream[next..];
    bytes := Some(body[..size.value]);
  }

  ghost function After(done: seq<Bytes>, r: Option<ReadMany>): Option<ReadMany> {
    match r
    case None => None
    case Some(m) => Some(ReadMany(done + m.blobs, m.rest))
  }

  lemma AfterNothing(oids: seq<Bytes>, s: Bytes)
    ensures ReadAll(oids, s) == After([], ReadAll(oids[0..], s[0..]))
  {
    assert oids[0..] == oids && s[0..] == s;
    var r := ReadAll(oids, s);
    if r.Some? { assert [] + r.value.blobs == r.value.blobs; }
  }

  lemma AfterAssoc(done: seq<Bytes>, b: Bytes, r: Option<ReadMany>)
    ensures After(done + [b], r)
         == After(done, match r case None => None case Some(m) => Some(ReadMany([b] + m.blobs, m.rest)))
  {
    if r.Some? { assert (done + [b]) + r.value.blobs == done + ([b] + r.value.blobs); }
  }

  // ------------------------------------------------------- the framed stream

  function Decimal(n: nat): (s: Bytes)
    ensures s != [] && forall i :: 0 <= i < |s| ==> IsDigit(s[i])
  {
    if n < 10 then [48 + n] else Decimal(n / 10) + [48 + n % 10]
  }

  function HeaderLine(oid: Bytes, size: nat): Bytes {
    oid + ([SPACE] + (BLOB + ([SPACE] + Decimal(size))))
  }

  function Frame(oid: Bytes, blob: Bytes): Bytes {
    HeaderLine(oid, |blob|) + ([NEWLINE] + (blob + [NEWLINE]))
  }

  function Stream(oids: seq<Bytes>, blobs: seq<Bytes>): Bytes
    requires |oids| == |blobs|
  {
    if oids == [] then [] else Frame(oids[0], blobs[0]) + Stream(oids[1..], blobs[1..])
  }

  /** An object id: text without white space. */
  predicate Word(s: Bytes) {
    s != [] && forall i :: 0 <= i < |s| ==> !IsWhite(s[i])
  }

  predicate Readable(oids: seq<Bytes>, blobs: seq<Bytes>) {
    && |oids| == |blobs|
    && (forall i :: 0 <= i < |oids| ==> Word(oids[i]))
    && (forall i :: 0 <= i < |blobs| ==> |blobs[i]| <= LIMIT)
  }

  lemma {:induction false} NumberDecimal(n: nat)
    ensures Number(Decimal(n)) == n
  {
    var s := Decimal(n);
    if n < 10 {
      assert s[..|s| - 1] == [];
    } else {
      NumberDecimal(n / 10);
      assert s[..|s| - 1] == Decimal(n / 10);
    }
  }

  lemma SizeRoundTrip(n: nat)
    requires n <= LIMIT
    ensures ParseSize(Decimal(n)) == Some(n)
  {
    NumberDecimal(n);
    assert IsDigit(Decimal(n)[0]);
  }

  lemma FieldsCons(a: Bytes, b: Bytes)
    requires forall i :: 0 <= i < |a| ==> a[i] != SPACE
    ensures Fields(a + ([SPACE] + b)) == [a] + Fields(b)
  {
    var s := a + ([SPACE] + b);
    assert s[|a|] == SPACE;
    assert FirstSpace(s) == |a|;
    assert s[..|a|] == a && s[|a| + 1..] == b;
  }

  lemma FieldsLast(a: Bytes)
    requires forall i :: 0 <= i < |a| ==> a[i] != SPACE
    ensures Fields(a) == [a]
  {
    assert FirstSpace(a) == |a|;
  }

  lemma HeaderFields(oid: Bytes, size: nat)
    requires Word(oid)
    ensures Fields(HeaderLine(oid, size)) == [oid, BLOB, Decimal(size)]
  {
    FieldsLast(Decimal(size));
    FieldsCons(BLOB, Decimal(size));
    FieldsCons(oid, BLOB + ([SPACE] + Decimal(size)));
  }

  lemma {:induction false} TrimEndWhole(s: Bytes)
    requires s != [] && !IsWhite(s[|s| - 1])
    ensures TrimEndBytes(s) == s == TrimEndBytes(s + [NEWLINE])
  {
    var t := s + [NEWLINE];
    assert t[..|t| - 1] == s;
  }

  lemma {:induction false} LineEndAt(a: Bytes, b: Bytes)
    requires forall i :: 0 <= i < |a| ==> a[i] != NEWLINE
    ensures LineEnd(a + ([NEWLINE] + b)) == |a| + 1
    ensures LineEnd(a) == |a|
  {
    if a == [] {
      assert a + ([NEWLINE] + b) == [NEWLINE] + b;
    } else {
      assert (a + ([NEWLINE] + b))[1..] == a[1..] + ([NEWLINE] + b);
      LineEndAt(a[1..], b);
    }
  }

  lemma HeaderShape(oid: Bytes, size: nat)
    requires Word(oid)
    ensures var h := HeaderLine(oid, size);
            && h != [] && !IsWhite(h[|h| - 1])
            && forall i :: 0 <= i < |h| ==> h[i] != NEWLINE
  {
    var h := HeaderLine(oid, size);
    var d := Decimal(size);
    assert h[|h| - 1] == d[|d| - 1];
    assert forall i :: 0 <= i < |oid| ==> oid[i] != NEWLINE;
    assert forall i :: 0 <= i < |d| ==> d[i] != NEWLINE;
  }

  lemma HeaderRoundTrip(oid: Bytes, size: nat)
    requires Word(oid) && size <= LIMIT
    ensures ParseHeader(HeaderLine(oid, size) + [NEWLINE], oid) == Some(size)
  {
    HeaderShape(oid, size);
    TrimEndWhole(HeaderLine(oid, size));
    HeaderFields(oid, size);
    SizeRoundTrip(size);
  }

  /** One frame is read whole, whatever bytes the blob holds and whatever follows. */
  lemma ReadFrame(oid: Bytes, blob: Bytes, tail: Bytes)
    requires Word(oid) && |blob| <= LIMIT
    ensures ReadOne(oid, Frame(oid, blob) + tail) == Some(Read(blob, tail))
  {
    var h := HeaderLine(oid, |blob|);
    HeaderShape(oid, |blob|);
    HeaderRoundTrip(oid, |blob|);
    FrameSlices(h, blob, tail);
    FrameLine(h, blob, tail);
    TakeWhole(blob, tail);
    ReadOneAt(oid, Frame(oid, blob) + tail, |h| + 1, |blob|);
  }

  lemma ReadOneAt(oid: Bytes, s: Bytes, n: nat, size: nat)
    requires n == LineEnd(s) && ParseHeader(s[..n], oid) == Some(size)
    ensures ReadOne(oid, s) == TakeBlob(s[n..], size)
  {
  }

  lemma FrameLine(h: Bytes, blob: Bytes, tail: Bytes)
    requires forall i :: 0 <= i < |h| ==> h[i] != NEWLINE
    ensures LineEnd(h + ([NEWLINE] + (blob + [NEWLINE])) + tail) == |h| + 1
  {
    FrameSlices(h, blob, tail);
    LineEndAt(h, blob + [NEWLINE] + tail);
  }

  lemma FrameSlices(h: Bytes, blob: Bytes, tail: Bytes)
    ensures var s := h + ([NEWLINE] + (blob + [NEWLINE])) + tail;
            && s == h + ([NEWLINE] + (blob + [NEWLINE] + tail))
            && s[..|h| + 1] == h + [NEWLINE]
            && s[|h| + 1..] == blob + [NEWLINE] + tail
  {
  }

  lemma TakeWhole(blob: Bytes, tail: Bytes)
    ensures TakeBlob(blob + [NEWLINE] + tail, |blob|) == Some(Read(blob, tail))
  {
    var s := blob + [NEWLINE] + tail;
    assert s[..|blob|] == blob && s[|blob| + 1..] == tail;
  }

  /** The whole stream: exactly the blobs, in order, and exactly the stream is consumed. */
  lemma {:induction false} StreamRoundTrip(oids: seq<Bytes>, blobs: seq<Bytes>, tail: Bytes)
    requires Readable(oids, blobs)
    ensures ReadAll(oids, Stream(oids, blobs) + tail) == Some(ReadMany(blobs, tail))
    decreases |oids|
  {
    if oids == [] {
      assert Stream(oids, blobs) + tail == tail;
    } else {
      assert Word(oids[0]) && |blobs[0]| <= LIMIT;
      var f, m := Frame(oids[0], blobs[0]), Stream(oids[1..], blobs[1..]);
      Regroup(f, m, tail);
      ReadFrame(oids[0], blobs[0], m + tail);
      StreamRoundTrip(oids[1..], blobs[1..], tail);
      assert [blobs[0]] + blobs[1..] == blobs;
    }
  }

  lemma Regroup(a: Bytes, b: Bytes, c: Bytes)
    ensures (a + b) + c == a + (b + c)
  {
  }

  /** A frame cut anywhere before its end is refused. */
  lemma CutFrame(oid: Bytes, blob: Bytes, m: nat)
    requires Word(oid) && |blob| <= LIMIT && m < |Frame(oid, blob)|
    ensures ReadOne(oid, Frame(oid, blob)[..m]).None?
  {
    var h := HeaderLine(oid, |blob|);
    HeaderShape(oid, |blob|);
    if m <= |h| {
      CutInHeader(h, blob, m);
    } else {
      CutInBody(h, blob, m);
      HeaderRoundTrip(oid, |blob|);
    }
  }

  lemma CutInHeader(h: Bytes, blob: Bytes, m: nat)
    requires m <= |h| && forall i :: 0 <= i < |h| ==> h[i] != NEWLINE
    ensures LineEnd((h + ([NEWLINE] + (blob + [NEWLINE])))[..m]) == m
  {
    var s := h[..m];
    assert (h + ([NEWLINE] + (blob + [NEWLINE])))[..m] == s;
    LineEndAt(s, []);
  }

  lemma CutInBody(h: Bytes, blob: Bytes, m: nat)
    requires |h| < m < |h| + |blob| + 2 && forall i :: 0 <= i < |h| ==> h[i] != NEWLINE
    ensures var s := (h + ([NEWLINE] + (blob + [NEWLINE])))[..m];
            LineEnd(s) == |h| + 1 && s[..|h| + 1] == h + [NEWLINE]
  {
    var s := (h + ([NEWLINE] + (blob + [NEWLINE])))[..m];
    var b := (blob + [NEWLINE])[..m - |h| - 1];
    assert s == h + ([NEWLINE] + b);
    LineEndAt(h, b);
  }

  /** A truncated stream is always refused: no proper prefix is read as all the blobs. */
  lemma {:induction false} CutStream(oids: seq<Bytes>, blobs: seq<Bytes>, m: nat)
    requires Readable(oids, blobs) && m < |Stream(oids, blobs)|
    ensures ReadAll(oids, Stream(oids, blobs)[..m]).None?
    decreases |oids|
  {
    var f, more := Frame(oids[0], blobs[0]), Stream(oids[1..], blobs[1..]);
    assert Word(oids[0]) && |blobs[0]| <= LIMIT;
    CutAppend(f, more, m);
    if m < |f| {
      CutFrame(oids[0], blobs[0], m);
    } else {
      ReadFrame(oids[0], blobs[0], more[..m - |f|]);
      CutStream(oids[1..], blobs[1..], m - |f|);
    }
  }

  lemma CutAppend(a: Bytes, b: Bytes, m: nat)
    requires m <= |a| + |b|
    ensures (a + b)[..m] == if m < |a| then a[..m] else a + b[..m - |a|]
  {
  }

  // ------------------------------------------------------- only framed streams are accepted

  /** The fields with a space between any two. */
  function JoinFields(f: seq<Bytes>): Bytes
    requires f != []
  {
    if |f| == 1 then f[0] else f[0] + ([SPACE] + JoinFields(f[1..]))
  }

  lemma {:induction false} FieldsJoined(s: Bytes)
    ensures Fields(s) != [] && JoinFields(Fields(s)) == s
    decreases |s|
  {
    var k := FirstSpace(s);
    if k < |s| {
      var rest := s[k + 1..];
      FieldsJoined(rest);
      assert Fields(s)[1..] == Fields(rest);
      assert s == s[..k] + ([SPACE] + rest);
    }
  }

  lemma JoinThree(a: Bytes, b: Bytes, c: Bytes)
    ensures JoinFields([a, b, c]) == a + ([SPACE] + (b + ([SPACE] + c)))
  {
    assert [a, b, c][1..] == [b, c] && [b, c][1..] == [c];
    assert JoinFields([c]) == c;
  }

  /** A header line for this object and size: the id, the word blob and the size, one space apart,
      with nothing but white space after them. */
  predicate HeaderFor(h: Bytes, oid: Bytes, size: nat, digits: Bytes) {
    && TrimEndBytes(h) == oid + ([SPACE] + (BLOB + ([SPACE] + digits)))
    && ParseSize(digits) == Some(size) && size <= LIMIT
  }

  lemma HeaderSound(h: Bytes, oid: Bytes)
    requires ParseHeader(h, oid).Some?
    ensures |Fields(TrimEndBytes(h))| == 3
    ensures HeaderFor(h, oid, ParseHeader(h, oid).value, Fields(TrimEndBytes(h))[2])
  {
    var f := Fields(TrimEndBytes(h));
    FieldsJoined(TrimEndBytes(h));
    assert f == [oid, BLOB, f[2]];
    JoinThree(oid, BLOB, f[2]);
  }

  lemma TakeSound(s: Bytes, size: nat)
    requires TakeBlob(s, size).Some?
    ensures var r := TakeBlob(s, size).value; |r.blob| == size && s == r.blob + ([NEWLINE] + r.rest)
  {
  }

  /** The bytes are a header for this object and blob, the blob, a newline, and what is left. */
  ghost predicate FramedOne(oid: Bytes, blob: Bytes, s: Bytes, more: Bytes) {
    exists h, digits :: HeaderFor(h, oid, |blob|, digits) && s == h + (blob + ([NEWLINE] + more))
  }

  lemma ReadOneSound(oid: Bytes, s: Bytes)
    requires ReadOne(oid, s).Some?
    ensures FramedOne(oid, ReadOne(oid, s).value.blob, s, ReadOne(oid, s).value.rest)
  {
    var n := LineEnd(s);
    var h, body := s[..n], s[n..];
    HeaderSound(h, oid);
    var size := ParseHeader(h, oid).value;
    TakeSound(body, size);
    var r := TakeBlob(body, size).value;
    assert s == h + body;
    FramedBy(oid, r.blob, s, r.rest, h, Fields(TrimEndBytes(h))[2]);
  }

  lemma FramedBy(oid: Bytes, blob: Bytes, s: Bytes, more: Bytes, h: Bytes, digits: Bytes)
    requires HeaderFor(h, oid, |blob|, digits) && s == h + (blob + ([NEWLINE] + more))
    ensures FramedOne(oid, blob, s, more)
  {
  }

  /** The stream is a sequence of such frames for these objects, in order. */
  ghost predicate Framed(oids: seq<Bytes>, blobs: seq<Bytes>, s: Bytes, rest: Bytes)
    requires |oids| == |blobs|
    decreases |oids|
  {
    if oids == [] then s == rest
    else exists more :: FramedOne(oids[0], blobs[0], s, more) && Framed(oids[1..], blobs[1..], more, rest)
  }

  lemma FramedCons(oids: seq<Bytes>, blobs: seq<Bytes>, s: Bytes, more: Bytes, rest: Bytes)
    requires oids != [] && |oids| == |blobs|
    requires FramedOne(oids[0], blobs[0], s, more) && Framed(oids[1..], blobs[1..], more, rest)
    ensures Framed(oids, blobs, s, rest)
  {
  }

  /** Whatever the reader accepts is such a stream for exactly the objects asked for. */
  lemma {:induction false} AcceptedIsFramed(oids: seq<Bytes>, s: Bytes)
    requires ReadAll(oids, s).Some?
    ensures var m := ReadAll(oids, s).value; |m.blobs| == |oids| && Framed(oids, m.blobs, s, m.rest)
    decreases |oids|
  {
    if oids != [] {
      ReadOneSound(oids[0], s);
      var r := ReadOne(oids[0], s).value;
      AcceptedIsFramed(oids[1..], r.rest);
      var m, tail := ReadAll(oids, s).value, ReadAll(oids[1..], r.rest).value;
      assert m.blobs[0] == r.blob && m.blobs[1..] == tail.blobs;
      FramedCons(oids, m.blobs, s, r.rest, m.rest);
    }
  }
}
