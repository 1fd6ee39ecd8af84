/**
 readSignedReceiptBatch: the decoder for the length-framed output of `git cat-file --batch`.
 Arguments and object names are the UTF-8 bytes of their strings.
 */
module ReceiptBatch {
  import opened Results
  import opened Utf8
  import opened Numerals

  type Byte = Octet

  type Bytes = seq<Byte>

  /** An ASCII string literal as bytes. */
  function Ascii(s: string): (r: Bytes)
    ensures |r| == |s|
    ensures forall i :: 0 <= i < |s| ==> r[i] == s[i] as int % 256
  {
    seq(|s|, i requires 0 <= i < |s| => s[i] as int % 256)
  }

  type Args = seq<Bytes>

  datatype GitResult = GitResult(exitCode: int, stdout: Bytes)

  datatype GitRead = GitRead(args: Args, result: GitResult)

  const NEWLINE: Byte := 10
  const SPACE: Byte := 32
  const SIGNED_RECEIPT_BATCH_MAX_BYTES := 32 * 1024 * 1024
  const MAX_SAFE_INTEGER := 0x1F_FFFF_FFFF_FFFF

  // ----- which queries are pinned to an immutable object

  predicate IsHex(b: Byte) {
    48 <= b <= 57 || 97 <= b <= 102
  }

  predicate IsObjectId(s: Bytes) {
    |s| == 40 && forall i :: 0 <= i < 40 ==> IsHex(s[i])
  }

  function CommitSuffix(): Bytes { Ascii("^{commit}") }

  /** A line terminator of a JavaScript pattern's dot: LF, CR, U+2028 or U+2029. */
  predicate TerminatorAt(s: Bytes, i: nat)
    requires i < |s|
  {
    || s[i] == 10 || s[i] == 13
    || (i + 2 < |s| && s[i] == 0xE2 && s[i + 1] == 0x80 && (s[i + 2] == 0xA8 || s[i + 2] == 0xA9))
  }

  /** /^[0-9a-f]{40}(?:\^\{commit\}|:.+)$/u */
  predicate IsPinnedName(s: Bytes) {
    && |s| > 40 && IsObjectId(s[..40])
    && (s[40..] == CommitSuffix()
        || (s[40] == 58 && |s| >= 42 && forall i :: 41 <= i < |s| ==> !TerminatorAt(s, i)))
  }

  /** A NUL, or the first byte of a character in the pattern class \s. */
  predicate BlankAt(s: Bytes, i: nat)
    requires i < |s|
  {
    || s[i] == 0 || s[i] == 32 || 9 <= s[i] <= 13
    || (i + 1 < |s| && s[i] == 0xC2 && s[i + 1] == 0xA0)
    || (i + 2 < |s| && (
          || (s[i] == 0xE1 && s[i + 1] == 0x9A && s[i + 2] == 0x80)
          || (s[i] == 0xE2 && s[i + 1] == 0x80 && (0x80 <= s[i + 2] <= 0x8A || s[i + 2] in {0xA8, 0xA9, 0xAF}))
          || (s[i] == 0xE2 && s[i + 1] == 0x81 && s[i + 2] == 0x9F)
          || (s[i] == 0xE3 && s[i + 1] == 0x80 && s[i + 2] == 0x80)
          || (s[i] == 0xEF && s[i + 1] == 0xBB && s[i + 2] == 0xBF)))
  }

  predicate HasBlank(s: Bytes) {
    exists i :: 0 <= i < |s| && BlankAt(s, i)
  }

  predicate IsCatFile(args: Args) {
    |args| == 3 && args[0] == Ascii("cat-file") && args[1] == Ascii("-e")
  }

  predicate IsShow(args: Args) {
    |args| == 2 && args[0] == Ascii("show")
  }

  /** The immutable object a query reads, if it reads one. */
  function SignedReceiptObject(args: Args): (r: Option<Bytes>)
    ensures r.Some? <==> (IsCatFile(args) || IsShow(args)) && IsPinnedName(args[|args| - 1])
    ensures r.Some? ==> r.value == args[|args| - 1]
  {
    if IsCatFile(args) && IsPinnedName(args[2]) then Some(args[2])
    else if IsShow(args) && IsPinnedName(args[1]) then Some(args[1])
    else None
  }

  // ----- requests

  datatype BatchRequest = BatchRequest(args: Args, target: Bytes)

  /** A query the batch asks for. */
  predicate Eligible(args: Args) {
    SignedReceiptObject(args).Some? && !HasBlank(SignedReceiptObject(args).value)
  }

  /** The `requests` map: eligible queries once each, in order of first appearance. */
  function Requests(queries: seq<Args>): (r: seq<BatchRequest>)
    ensures forall i :: 0 <= i < |r| ==>
              Eligible(r[i].args) && SignedReceiptObject(r[i].args) == Some(r[i].target)
    ensures forall args :: Asked(r, args) <==> args in queries && Eligible(args)
    ensures forall i, j :: 0 <= i < j < |r| ==> r[i].args != r[j].args
  {
    if queries == [] then []
    else
      var before := Requests(queries[..|queries| - 1]);
      var args := queries[|queries| - 1];
      assert queries == queries[..|queries| - 1] + [args];
      if Eligible(args) && !Asked(before, args)
      then AskedNext(before, BatchRequest(args, SignedReceiptObject(args).value));
        before + [BatchRequest(args, SignedReceiptObject(args).value)]
      else before
  }

  predicate Asked(requests: seq<BatchRequest>, args: Args) {
    exists i :: 0 <= i < |requests| && requests[i].args == args
  }

  lemma AskedNext(before: seq<BatchRequest>, request: BatchRequest)
    ensures forall args :: Asked(before + [request], args) <==> Asked(before, args) || args == request.args
  {
    var after := before + [request];
    forall args
      ensures Asked(after, args) <==> Asked(before, args) || args == request.args
    {
      assert after[|before|] == request;
      if Asked(before, args) {
        var i :| 0 <= i < |before| && before[i].args == args;
        assert after[i].args == args;
      }
      if Asked(after, args) {
        var i :| 0 <= i < |after| && after[i].args == args;
        assert i < |before| ==> before[i].args == args;
      }
    }
  }

  function ObjectsOf(requests: seq<BatchRequest>): (r: seq<Bytes>)
    ensures |r| == |requests| && forall i :: 0 <= i < |r| ==> r[i] == requests[i].target
  {
    seq(|requests|, i requires 0 <= i < |requests| => requests[i].target)
  }

  /** The names, one a line: what is written to git. */
  function Lines(names: seq<Bytes>): Bytes {
    if names == [] then [] else names[0] + [NEWLINE] + Lines(names[1..])
  }

  // ----- the framing

  datatype ObjectKind = Blob | Tree | Commit | Tag

  function KindName(kind: ObjectKind): Bytes {
    match kind
    case Blob => Ascii("blob")
    case Tree => Ascii("tree")
    case Commit => Ascii("commit")
    case Tag => Ascii("tag")
  }

  /** Git's answer for one name. */
  datatype Reply = Missing | Found(oid: Bytes, kind: ObjectKind, body: Bytes)

  ghost predicate ValidReply(reply: Reply) {
    reply.Found? ==> IsObjectId(reply.oid) && |reply.body| <= MAX_SAFE_INTEGER
  }

  function Decimal(n: nat): (r: Bytes)
    ensures |r| > 0
    ensures forall i :: 0 <= i < |r| ==> 48 <= r[i] <= 57
  {
    if n < 10 then [48 + n] else Decimal(n / 10) + [48 + n % 10]
  }

  function MissingHeader(target: Bytes): Bytes {
    target + Ascii(" missing")
  }

  function FoundHeader(oid: Bytes, kind: ObjectKind, size: nat): Bytes {
    oid + [SPACE] + KindName(kind) + [SPACE] + Decimal(size)
  }

  function Frame(target: Bytes, reply: Reply): Bytes {
    match reply
    case Missing => MissingHeader(target) + [NEWLINE]
    case Found(oid, kind, body) => FoundHeader(oid, kind, |body|) + [NEWLINE] + body + [NEWLINE]
  }

  ghost predicate ValidReplies(objects: seq<Bytes>, replies: seq<Reply>) {
    |replies| == |objects| && forall i :: 0 <= i < |replies| ==> ValidReply(replies[i])
  }

  // ----- decoding

  /** The position of the first newline at or after `from`, or the length. */
  function NewlineFrom(s: Bytes, from: nat): (r: nat)
    requires from <= |s|
    ensures from <= r <= |s|
    ensures forall i :: from <= i < r ==> s[i] != NEWLINE
    ensures r < |s| ==> s[r] == NEWLINE
    decreases |s| - from
  {
    if from == |s| || s[from] == NEWLINE then from else NewlineFrom(s, from + 1)
  }

  predicate AllDigits(s: Bytes) {
    forall i :: 0 <= i < |s| ==> 48 <= s[i] <= 57
  }

  /** (0|[1-9]\d*) */
  predicate IsCanonicalNumber(s: Bytes) {
    |s| > 0 && AllDigits(s) && (s == [48] || s[0] != 48)
  }

  function NumberOf(s: Bytes): nat
    requires AllDigits(s)
  {
    if s == [] then 0 else 10 * NumberOf(s[..|s| - 1]) + (s[|s| - 1] - 48)
  }

  /** The kind named after the object id, if the header continues with it and a space. */
  function KindAfterId(header: Bytes): Option<ObjectKind>
    requires |header| > 40
  {
    var rest := header[41..];
    if (Ascii("blob") + [SPACE]) <= rest then Some(Blob)
    else if (Ascii("tree") + [SPACE]) <= rest then Some(Tree)
    else if (Ascii("commit") + [SPACE]) <= rest then Some(Commit)
    else if (Ascii("tag") + [SPACE]) <= rest then Some(Tag)
    else None
  }

  datatype Header = Header(oid: Bytes, kind: ObjectKind, size: nat)

  /** /^([0-9a-f]{40}) (blob|tree|commit|tag) (0|[1-9]\d*)$/u */
  function ParseHeader(header: Bytes): (r: Option<Header>)
    ensures r.Some? ==> IsObjectId(r.value.oid)
  {
    if |header| <= 41 || !IsObjectId(header[..40]) || header[40] != SPACE then None
    else
      match KindAfterId(header)
      case None => None
      case Some(kind) =>
        var number := header[42 + |KindName(kind)|..];
        if IsCanonicalNumber(number) then Some(Header(header[..40], kind, NumberOf(number))) else None
  }

  /** One turn of the decoding loop, for any way of parsing a header line. */
  function DecodeWith(parse: Bytes -> Option<Header>, missing: Bytes, output: Bytes, offset: nat): (r: Option<(Reply, nat)>)
    requires offset <= |output|
    ensures r.Some? ==> offset < r.value.1 <= |output|
  {
    var newline := NewlineFrom(output, offset);
    if newline == |output| then None
    else
      var header := output[offset..newline];
      var start := newline + 1;
      if header == missing then Some((Missing, start))
      else
        match parse(header)
        case None => None
        case Some(fields) =>
          var end := start + fields.size;
          if fields.size > MAX_SAFE_INTEGER || end >= |output| || output[end] != NEWLINE then None
          else Some((Found(fields.oid, fields.kind, output[start..end]), end + 1))
  }

  /** The reply at `offset` and the offset after it. */
  function DecodeAt(target: Bytes, output: Bytes, offset: nat): (r: Option<(Reply, nat)>)
    requires offset <= |output|
    ensures r.Some? ==> offset < r.value.1 <= |output|
  {
    DecodeWith(ParseHeader, MissingHeader(target), output, offset)
  }

  /** The reads an answered request contributes. */
  function Observed(request: BatchRequest, reply: Reply): seq<GitRead> {
    if reply.Missing? then []
    else if request.args != [] && request.args[0] == Ascii("cat-file")
            && EndsWith(request.target, CommitSuffix()) && reply.kind == Commit
    then [GitRead(request.args, GitResult(0, []))]
    else if request.args != [] && request.args[0] == Ascii("show") && reply.kind == Blob
    then [GitRead(request.args, GitResult(0, reply.body))]
    else []
  }

  predicate EndsWith(s: Bytes, suffix: Bytes) {
    |s| >= |suffix| && s[|s| - |suffix|..] == suffix
  }

  function ObservedAll(requests: seq<BatchRequest>, replies: seq<Reply>): seq<GitRead>
    requires |requests| == |replies|
  {
    if requests == [] then []
    else
      var k := |requests| - 1;
      ObservedAll(requests[..k], replies[..k]) + Observed(requests[k], replies[k])
  }

  // ----- numbers

  lemma {:induction false} DecimalRoundTrip(n: nat)
    ensures IsCanonicalNumber(Decimal(n)) && NumberOf(Decimal(n)) == n
    ensures n > 0 ==> Decimal(n)[0] != 48
  {
    if n >= 10 {
      DecimalRoundTrip(n / 10);
      assert Decimal(n)[..|Decimal(n)| - 1] == Decimal(n / 10);
    }
  }

  lemma CanonicalPrefix(s: Bytes)
    requires IsCanonicalNumber(s) && |s| > 1
    ensures IsCanonicalNumber(s[..|s| - 1]) && s[0] != 48 && 48 <= s[|s| - 1] <= 57
  {
    var front := s[..|s| - 1];
    assert forall i :: 0 <= i < |front| ==> front[i] == s[i];
  }

  lemma DecimalSnoc(n: nat, digit: nat)
    requires n > 0 && digit < 10
    ensures Decimal(10 * n + digit) == Decimal(n) + [48 + digit]
  {
    assert (10 * n + digit) / 10 == n && (10 * n + digit) % 10 == digit;
  }

  lemma {:induction false} CanonicalIsDecimal(s: Bytes)
    requires IsCanonicalNumber(s)
    ensures Decimal(NumberOf(s)) == s
    ensures s[0] != 48 ==> NumberOf(s) > 0
  {
    var k := |s| - 1;
    if k == 0 {
      assert s[..0] == [] && s == [s[0]];
    } else {
      CanonicalPrefix(s);
      CanonicalIsDecimal(s[..k]);
      DecimalSnoc(NumberOf(s[..k]), s[k] - 48);
      assert s == s[..k] + [s[k]];
    }
  }

  // ----- one record

  /** A header holds no newline, so the first newline of a frame ends its header. */
  lemma HeaderEnds(output: Bytes, offset: nat, header: Bytes)
    requires offset + |header| < |output| && output[offset..offset + |header|] == header
    requires NEWLINE !in header && output[offset + |header|] == NEWLINE
    ensures NewlineFrom(output, offset) == offset + |header|
  {
    forall i | offset <= i < offset + |header|
      ensures output[i] != NEWLINE
    {
      assert output[i] == output[offset..offset + |header|][i - offset];
      assert header[i - offset] in header;
    }
  }

  lemma PinnedNamesHaveNoNewline(target: Bytes)
    requires !HasBlank(target)
    ensures NEWLINE !in target
  {
    if NEWLINE in target {
      var i :| 0 <= i < |target| && target[i] == NEWLINE;
      assert BlankAt(target, i);
    }
  }

  lemma HeaderParts(oid: Bytes, name: Bytes, number: Bytes)
    requires |oid| == 40
    ensures var header := oid + [SPACE] + name + [SPACE] + number;
            && header[..40] == oid && header[40] == SPACE
            && header[41..] == name + [SPACE] + number
            && header[42 + |name|..] == number
  {
  }

  lemma FoundHeaderHasNoNewline(oid: Bytes, kind: ObjectKind, size: nat)
    requires IsObjectId(oid)
    ensures NEWLINE !in FoundHeader(oid, kind, size)
  {
    assert NEWLINE !in oid && NEWLINE !in KindName(kind) && NEWLINE !in Decimal(size);
  }

  lemma KindRead(header: Bytes, kind: ObjectKind, tail: Bytes)
    requires |header| > 40 && header[41..] == KindName(kind) + [SPACE] + tail
    ensures KindAfterId(header) == Some(kind)
  {
    KindNamesDiffer(kind, header[41..], tail);
  }

  lemma ParseFoundHeader(oid: Bytes, kind: ObjectKind, size: nat)
    requires IsObjectId(oid)
    ensures ParseHeader(FoundHeader(oid, kind, size)) == Some(Header(oid, kind, size))
  {
    var header := FoundHeader(oid, kind, size);
    DecimalRoundTrip(size);
    HeaderParts(oid, KindName(kind), Decimal(size));
    KindRead(header, kind, Decimal(size));
  }

  lemma KindNamesDiffer(kind: ObjectKind, rest: Bytes, tail: Bytes)
    requires rest == KindName(kind) + [SPACE] + tail
    ensures (Ascii("blob") + [SPACE] <= rest) <==> kind == Blob
    ensures (Ascii("tree") + [SPACE] <= rest) <==> kind == Tree
    ensures (Ascii("commit") + [SPACE] <= rest) <==> kind == Commit
    ensures (Ascii("tag") + [SPACE] <= rest) <==> kind == Tag
  {
    assert rest[0] == KindName(kind)[0] && rest[1] == KindName(kind)[1];
  }

  lemma NameInHeader(header: Bytes, name: Bytes)
    requires |header| > 41 && name + [SPACE] <= header[41..]
    ensures 42 + |name| <= |header| && header[41..] == name + [SPACE] + header[42 + |name|..]
  {
    assert header[41..][..|name| + 1] == name + [SPACE];
    assert header[41..] == header[41..][..|name| + 1] + header[41..][|name| + 1..];
  }

  lemma KindFound(header: Bytes)
    requires |header| > 40 && KindAfterId(header).Some?
    ensures KindName(KindAfterId(header).value) + [SPACE] <= header[41..]
  {
  }

  lemma HeaderAround(header: Bytes, name: Bytes)
    requires |header| > 41 && header[40] == SPACE && name + [SPACE] <= header[41..]
    ensures 42 + |name| <= |header|
    ensures header == header[..40] + [SPACE] + name + [SPACE] + header[42 + |name|..]
  {
    NameInHeader(header, name);
    assert header == header[..40] + [header[40]] + header[41..];
  }

  lemma HeaderFromParse(header: Bytes)
    requires ParseHeader(header).Some?
    ensures var fields := ParseHeader(header).value;
            header == FoundHeader(fields.oid, fields.kind, fields.size)
  {
    var kind := KindAfterId(header).value;
    KindFound(header);
    HeaderAround(header, KindName(kind));
    CanonicalIsDecimal(header[42 + |KindName(kind)|..]);
  }

  /** A pinned name's missing line can never be taken for the header of a found object. */
  lemma HeadersDiffer(target: Bytes, oid: Bytes, kind: ObjectKind, size: nat)
    requires IsPinnedName(target) && IsObjectId(oid)
    ensures MissingHeader(target) != FoundHeader(oid, kind, size)
  {
    assert MissingHeader(target)[40] == target[40];
    assert FoundHeader(oid, kind, size)[40] == SPACE;
    assert target[40..][0] == target[40];
  }

  lemma DecodeMissing(parse: Bytes -> Option<Header>, missing: Bytes, output: Bytes, offset: nat)
    requires NEWLINE !in missing && offset + |missing| < |output|
    requires output[offset..offset + |missing|] == missing && output[offset + |missing|] == NEWLINE
    ensures DecodeWith(parse, missing, output, offset) == Some((Missing, offset + |missing| + 1))
  {
    HeaderEnds(output, offset, missing);
  }

  lemma DecodeFound(parse: Bytes -> Option<Header>, missing: Bytes, header: Bytes, fields: Header, body: Bytes,
                    output: Bytes, offset: nat)
    requires parse(header) == Some(fields) && header != missing && NEWLINE !in header
    requires fields.size == |body| <= MAX_SAFE_INTEGER && offset + |header| + 1 + |body| < |output|
    requires output[offset..offset + |header|] == header && output[offset + |header|] == NEWLINE
    requires output[offset + |header| + 1..offset + |header| + 1 + |body|] == body
    requires output[offset + |header| + 1 + |body|] == NEWLINE
    ensures DecodeWith(parse, missing, output, offset)
         == Some((Found(fields.oid, fields.kind, body), offset + |header| + |body| + 2))
  {
    HeaderEnds(output, offset, header);
  }

  /** The parts of a frame that lies at `offset`. */
  lemma FrameParts(output: Bytes, offset: nat, header: Bytes, rest: Bytes)
    requires offset + |header| + 1 + |rest| <= |output|
    requires output[offset..offset + |header| + 1 + |rest|] == header + [NEWLINE] + rest
    ensures output[offset..offset + |header|] == header && output[offset + |header|] == NEWLINE
    ensures output[offset + |header| + 1..offset + |header| + 1 + |rest|] == rest
  {
    var frame := header + [NEWLINE] + rest;
    var x := output[offset..offset + |frame|];
    assert output[offset..offset + |header|] == x[..|header|] == header;
    assert output[offset + |header|] == x[|header|];
    assert output[offset + |header| + 1..offset + |frame|] == x[|header| + 1..] == rest;
  }

  lemma DecodeFoundFrame(parse: Bytes -> Option<Header>, missing: Bytes, header: Bytes, fields: Header, body: Bytes,
                         output: Bytes, offset: nat)
    requires parse(header) == Some(fields) && header != missing && NEWLINE !in header
    requires fields.size == |body| <= MAX_SAFE_INTEGER && offset + |header| + |body| + 2 <= |output|
    requires output[offset..offset + |header| + |body| + 2] == header + [NEWLINE] + body + [NEWLINE]
    ensures DecodeWith(parse, missing, output, offset)
         == Some((Found(fields.oid, fields.kind, body), offset + |header| + |body| + 2))
  {
    assert header + [NEWLINE] + body + [NEWLINE] == header + [NEWLINE] + (body + [NEWLINE]);
    FrameParts(output, offset, header, body + [NEWLINE]);
    FrameParts(output, offset + |header| + 1, body, []);
    DecodeFound(parse, missing, header, fields, body, output, offset);
  }

  lemma DecodeMissingFrame(target: Bytes, output: Bytes, offset: nat)
    requires !HasBlank(target) && offset + |MissingHeader(target)| + 1 <= |output|
    requires output[offset..offset + |MissingHeader(target)| + 1] == MissingHeader(target) + [NEWLINE]
    ensures DecodeAt(target, output, offset) == Some((Missing, offset + |MissingHeader(target)| + 1))
  {
    var header := MissingHeader(target);
    assert header + [NEWLINE] == header + [NEWLINE] + [];
    FrameParts(output, offset, header, []);
    PinnedNamesHaveNoNewline(target);
    DecodeMissing(ParseHeader, header, output, offset);
  }

  /** Decoding undoes framing, whatever bytes the body holds and whatever follows the frame. */
  lemma DecodeFrame(target: Bytes, reply: Reply, output: Bytes, offset: nat)
    requires IsPinnedName(target) && !HasBlank(target) && ValidReply(reply)
    requires offset + |Frame(target, reply)| <= |output|
    requires output[offset..offset + |Frame(target, reply)|] == Frame(target, reply)
    ensures DecodeAt(target, output, offset) == Some((reply, offset + |Frame(target, reply)|))
  {
    match reply
    case Missing =>
      DecodeMissingFrame(target, output, offset);
    case Found(oid, kind, body) =>
      ParseFoundHeader(oid, kind, |body|);
      FoundHeaderHasNoNewline(oid, kind, |body|);
      HeadersDiffer(target, oid, kind, |body|);
      DecodeFoundFrame(ParseHeader, MissingHeader(target), FoundHeader(oid, kind, |body|),
                       Header(oid, kind, |body|), body, output, offset);
  }

  lemma LineAt(output: Bytes, offset: nat, newline: nat)
    requires offset <= newline < |output| && output[newline] == NEWLINE
    ensures output[offset..newline + 1] == output[offset..newline] + [NEWLINE]
  {
  }

  lemma DecodedParts(parse: Bytes -> Option<Header>, missing: Bytes, output: Bytes, offset: nat, reply: Reply, next: nat)
    returns (header: Bytes)
    requires offset <= |output| && DecodeWith(parse, missing, output, offset) == Some((reply, next))
    ensures next <= |output|
    ensures reply.Missing? ==> output[offset..next] == missing + [NEWLINE]
    ensures reply.Found? ==>
      && parse(header) == Some(Header(reply.oid, reply.kind, |reply.body|)) && |reply.body| <= MAX_SAFE_INTEGER
      && output[offset..next] == header + [NEWLINE] + reply.body + [NEWLINE]
  {
    var newline := NewlineFrom(output, offset);
    header := output[offset..newline];
    LineAt(output, offset, newline);
    if header != missing {
      LineAt(output, newline + 1, next - 1);
      assert output[newline + 1..next - 1] == reply.body;
      assert output[offset..next] == output[offset..newline + 1] + output[newline + 1..next];
    }
  }

  /** Whatever decodes was framed. */
  lemma DecodedWasFramed(target: Bytes, output: Bytes, offset: nat, reply: Reply, next: nat)
    requires offset <= |output| && DecodeAt(target, output, offset) == Some((reply, next))
    ensures next <= |output| && ValidReply(reply) && output[offset..next] == Frame(target, reply)
  {
    var header := DecodedParts(ParseHeader, MissingHeader(target), output, offset, reply, next);
    if reply.Found? {
      HeaderFromParse(header);
    }
  }

  // ----- the whole output, for any framing of single replies

  type Framer = (Bytes, Reply) -> Bytes

  type Step = (Bytes, Bytes, nat) -> Option<(Reply, nat)>

  function FrameAllBy(frame: Framer, names: seq<Bytes>, replies: seq<Reply>): Bytes
    requires |names| == |replies|
  {
    if names == [] then [] else frame(names[0], replies[0]) + FrameAllBy(frame, names[1..], replies[1..])
  }

  /** All replies from `offset` on, if exactly the rest of the output decodes. */
  function DecodeAllBy(step: Step, names: seq<Bytes>, output: Bytes, offset: nat): (r: Option<seq<Reply>>)
    ensures r.Some? ==> |r.value| == |names|
    decreases |names|
  {
    if names == [] then if offset == |output| then Some([]) else None
    else
      match step(names[0], output, offset)
      case None => None
      case Some((reply, next)) => Prepend([reply], DecodeAllBy(step, names[1..], output, next))
  }

  /** `done` in front of the replies still to come. */
  function Prepend(done: seq<Reply>, rest: Option<seq<Reply>>): (r: Option<seq<Reply>>)
    ensures r.Some? <==> rest.Some?
    ensures r.Some? ==> |r.value| == |done| + |rest.value|
  {
    match rest
    case None => None
    case Some(replies) => Some(done + replies)
  }

  /** `frame` lies in `output` at `offset`. */
  predicate LiesAt(frame: Bytes, output: Bytes, offset: nat) {
    offset + |frame| <= |output| && output[offset..offset + |frame|] == frame
  }

  /** Wherever a framed valid reply lies, the step reads it back. */
  ghost predicate ReadsFrames(frame: Framer, step: Step, name: Bytes) {
    forall reply, output, offset: nat :: ValidReply(reply) && LiesAt(frame(name, reply), output, offset)
      ==> step(name, output, offset) == Some((reply, offset + |frame(name, reply)|))
  }

  /** Whatever the step reads was framed there. */
  ghost predicate ReadsOnlyFrames(frame: Framer, step: Step, name: Bytes) {
    forall output, offset: nat, reply, next :: step(name, output, offset) == Some((reply, next))
      ==> ValidReply(reply) && LiesAt(frame(name, reply), output, offset) && next == offset + |frame(name, reply)|
  }

  ghost predicate Codec(frame: Framer, step: Step, name: Bytes) {
    ReadsFrames(frame, step, name) && ReadsOnlyFrames(frame, step, name)
  }

  ghost predicate Codecs(frame: Framer, step: Step, names: seq<Bytes>) {
    forall i :: 0 <= i < |names| ==> Codec(frame, step, names[i])
  }

  lemma DecodedFirst(step: Step, names: seq<Bytes>, output: Bytes, offset: nat, next: nat, replies: seq<Reply>)
    requires names != [] && replies != [] && step(names[0], output, offset) == Some((replies[0], next))
    requires DecodeAllBy(step, names[1..], output, next) == Some(replies[1..])
    ensures DecodeAllBy(step, names, output, offset) == Some(replies)
  {
    assert replies == [replies[0]] + replies[1..];
  }

  lemma FrontLiesThere(output: Bytes, offset: nat, first: Bytes, rest: Bytes)
    requires offset <= |output| && output[offset..] == first + rest
    ensures LiesAt(first, output, offset) && output[offset + |first|..] == rest
  {
    assert output[offset..][..|first|] == output[offset..offset + |first|];
    assert output[offset..][|first|..] == output[offset + |first|..];
  }

  lemma {:induction false} DecodeUndoesFramingBy(frame: Framer, step: Step, names: seq<Bytes>, replies: seq<Reply>,
                                                 output: Bytes, offset: nat)
    requires Codecs(frame, step, names) && ValidReplies(names, replies)
    requires offset <= |output| && output[offset..] == FrameAllBy(frame, names, replies)
    ensures DecodeAllBy(step, names, output, offset) == Some(replies)
  {
    if names != [] {
      var first := frame(names[0], replies[0]);
      var rest := FrameAllBy(frame, names[1..], replies[1..]);
      FrontLiesThere(output, offset, first, rest);
      DecodeUndoesFramingBy(frame, step, names[1..], replies[1..], output, offset + |first|);
      assert Codec(frame, step, names[0]);
      DecodedFirst(step, names, output, offset, offset + |first|, replies);
    }
  }

  lemma SplitAt(output: Bytes, offset: nat, next: nat)
    requires offset <= next <= |output|
    ensures output[offset..] == output[offset..next] + output[next..]
  {
  }

  lemma FirstDecoded(step: Step, names: seq<Bytes>, output: Bytes, offset: nat, replies: seq<Reply>)
    requires names != [] && DecodeAllBy(step, names, output, offset) == Some(replies)
    ensures step(names[0], output, offset).Some?
    ensures var (reply, next) := step(names[0], output, offset).value;
            var rest := DecodeAllBy(step, names[1..], output, next);
            rest.Some? && replies == [reply] + rest.value && replies[0] == reply && replies[1..] == rest.value
  {
  }

  lemma {:induction false} DecodedWasFramedBy(frame: Framer, step: Step, names: seq<Bytes>, output: Bytes, offset: nat,
                                              replies: seq<Reply>)
    requires Codecs(frame, step, names)
    requires offset <= |output| && DecodeAllBy(step, names, output, offset) == Some(replies)
    ensures ValidReplies(names, replies) && output[offset..] == FrameAllBy(frame, names, replies)
  {
    if names != [] {
      var (reply, next) := step(names[0], output, offset).value;
      var rest := DecodeAllBy(step, names[1..], output, next).value;
      FirstDecoded(step, names, output, offset, replies);
      assert Codec(frame, step, names[0]);
      SplitAt(output, offset, next);
      DecodedWasFramedBy(frame, step, names[1..], output, next, rest);
    }
  }

  /** No framing of the same names is a proper prefix of another, so decoding is unique. */
  lemma {:induction false} FramingPrefixFreeBy(frame: Framer, step: Step, names: seq<Bytes>, a: seq<Reply>,
                                               b: seq<Reply>, extra: Bytes)
    requires Codecs(frame, step, names) && ValidReplies(names, a) && ValidReplies(names, b)
    requires FrameAllBy(frame, names, a) + extra == FrameAllBy(frame, names, b)
    ensures a == b && extra == []
    decreases |names|
  {
    if names != [] {
      var x, y := frame(names[0], a[0]), frame(names[0], b[0]);
      var xs, ys := FrameAllBy(frame, names[1..], a[1..]), FrameAllBy(frame, names[1..], b[1..]);
      assert x + (xs + extra) == y + ys;
      OneFrameInFront(frame, step, names[0], a[0], b[0], xs + extra, ys);
      FramingPrefixFreeBy(frame, step, names[1..], a[1..], b[1..], extra);
      assert a == [a[0]] + a[1..] && b == [b[0]] + b[1..];
    }
  }

  lemma OneFrameInFront(frame: Framer, step: Step, name: Bytes, a: Reply, b: Reply, xs: Bytes, ys: Bytes)
    requires Codec(frame, step, name) && ValidReply(a) && ValidReply(b)
    requires frame(name, a) + xs == frame(name, b) + ys
    ensures a == b && xs == ys
  {
    var x, y := frame(name, a), frame(name, b);
    var output := x + xs;
    assert output[0..0 + |x|] == x && (y + ys)[0..0 + |y|] == y;
    assert LiesAt(x, output, 0) && LiesAt(y, output, 0);
    assert step(name, output, 0) == Some((a, |x|)) && step(name, output, 0) == Some((b, |y|));
    assert xs == output[|x|..] && ys == (y + ys)[|y|..];
  }

  // ----- the whole output of git

  function FrameAll(names: seq<Bytes>, replies: seq<Reply>): Bytes
    requires |names| == |replies|
  {
    FrameAllBy(Frame, names, replies)
  }

  /** One turn of the loop; past the end there is nothing to read. */
  function Turn(target: Bytes, output: Bytes, offset: nat): Option<(Reply, nat)> {
    if offset <= |output| then DecodeAt(target, output, offset) else None
  }

  function DecodeAll(names: seq<Bytes>, output: Bytes): (r: Option<seq<Reply>>)
    ensures r.Some? ==> |r.value| == |names|
  {
    DecodeAllBy(Turn, names, output, 0)
  }

  /** Names the batch asks for: pinned and free of blanks. */
  predicate Askable(names: seq<Bytes>) {
    forall i :: 0 <= i < |names| ==> IsPinnedName(names[i]) && !HasBlank(names[i])
  }

  lemma TurnReadsFrame(target: Bytes, reply: Reply, output: Bytes, offset: nat)
    requires IsPinnedName(target) && !HasBlank(target) && ValidReply(reply)
    requires LiesAt(Frame(target, reply), output, offset)
    ensures Turn(target, output, offset) == Some((reply, offset + |Frame(target, reply)|))
  {
    DecodeFrame(target, reply, output, offset);
  }

  lemma TurnReadFrame(target: Bytes, output: Bytes, offset: nat, reply: Reply, next: nat)
    requires Turn(target, output, offset) == Some((reply, next))
    ensures ValidReply(reply) && LiesAt(Frame(target, reply), output, offset)
    ensures next == offset + |Frame(target, reply)|
  {
    DecodedWasFramed(target, output, offset, reply, next);
    assert |output[offset..next]| == next - offset;
  }

  /** `frame` and `step` are those of git, as values: proofs that go through them need not look inside. */
  ghost predicate GitValues(frame: Framer, step: Step) {
    && (forall name, reply {:trigger Frame(name, reply)} :: Frame(name, reply) == frame(name, reply))
    && (forall name, output, offset {:trigger Turn(name, output, offset)} :: Turn(name, output, offset) == step(name, output, offset))
  }

  lemma StepReadsFrame(frame: Framer, step: Step, target: Bytes, reply: Reply, output: Bytes, offset: nat)
    requires GitValues(frame, step) && IsPinnedName(target) && !HasBlank(target) && ValidReply(reply)
    requires LiesAt(frame(target, reply), output, offset)
    ensures step(target, output, offset) == Some((reply, offset + |frame(target, reply)|))
  {
    assert Frame(target, reply) == frame(target, reply);
    TurnReadsFrame(target, reply, output, offset);
  }

  lemma StepReadFrame(frame: Framer, step: Step, target: Bytes, output: Bytes, offset: nat, reply: Reply, next: nat)
    requires GitValues(frame, step) && step(target, output, offset) == Some((reply, next))
    ensures ValidReply(reply) && LiesAt(frame(target, reply), output, offset)
    ensures next == offset + |frame(target, reply)|
  {
    assert Turn(target, output, offset) == step(target, output, offset);
    TurnReadFrame(target, output, offset, reply, next);
  }

  lemma StepReadsFrames(frame: Framer, step: Step, target: Bytes)
    requires GitValues(frame, step) && IsPinnedName(target) && !HasBlank(target)
    ensures Codec(frame, step, target)
  {
    forall reply, output, offset: nat | ValidReply(reply) && LiesAt(frame(target, reply), output, offset)
      ensures step(target, output, offset) == Some((reply, offset + |frame(target, reply)|))
    {
      StepReadsFrame(frame, step, target, reply, output, offset);
    }
    forall output, offset: nat, reply, next | step(target, output, offset) == Some((reply, next))
      ensures ValidReply(reply) && LiesAt(frame(target, reply), output, offset)
      ensures next == offset + |frame(target, reply)|
    {
      StepReadFrame(frame, step, target, output, offset, reply, next);
    }
  }

  lemma GitCodecs(names: seq<Bytes>)
    requires Askable(names)
    ensures Codecs(Frame, Turn, names)
  {
    forall i | 0 <= i < |names|
      ensures Codec(Frame, Turn, names[i])
    {
      StepReadsFrames(Frame, Turn, names[i]);
    }
  }

  /** The decoder is a left inverse of the framing. */
  lemma DecodeUndoesFraming(names: seq<Bytes>, replies: seq<Reply>)
    requires Askable(names) && ValidReplies(names, replies)
    ensures DecodeAll(names, FrameAll(names, replies)) == Some(replies)
  {
    GitCodecs(names);
    var output := FrameAllBy(Frame, names, replies);
    assert output[0..] == output;
    DecodeUndoesFramingBy(Frame, Turn, names, replies, output, 0);
  }

  /** Nothing but framed replies decodes. */
  lemma DecodedWasAllFramed(names: seq<Bytes>, output: Bytes, replies: seq<Reply>)
    requires Askable(names) && DecodeAll(names, output) == Some(replies)
    ensures ValidReplies(names, replies) && output == FrameAll(names, replies)
  {
    GitCodecs(names);
    DecodedWasFramedBy(Frame, Turn, names, output, 0, replies);
    assert output[0..] == output;
  }

  /** A cut or a continuation of a framed output does not decode. */
  lemma CutOrExtendedOutputRefused(names: seq<Bytes>, replies: seq<Reply>, output: Bytes)
    requires Askable(names) && ValidReplies(names, replies)
    requires output < FrameAll(names, replies) || FrameAll(names, replies) < output
    ensures DecodeAll(names, output) == None
  {
    if DecodeAll(names, output).Some? {
      var other := DecodeAll(names, output).value;
      DecodedWasAllFramed(names, output, other);
      GitCodecs(names);
      FramingsComparable(Frame, Turn, names, replies, other);
    }
  }

  lemma FramingsComparable(frame: Framer, step: Step, names: seq<Bytes>, a: seq<Reply>, b: seq<Reply>)
    requires Codecs(frame, step, names) && ValidReplies(names, a) && ValidReplies(names, b)
    ensures FrameAllBy(frame, names, a) <= FrameAllBy(frame, names, b) ==> a == b
    ensures FrameAllBy(frame, names, b) <= FrameAllBy(frame, names, a) ==> a == b
  {
    var x, y := FrameAllBy(frame, names, a), FrameAllBy(frame, names, b);
    if x <= y {
      FramingPrefixFreeBy(frame, step, names, a, b, y[|x|..]);
    }
    if y <= x {
      FramingPrefixFreeBy(frame, step, names, b, a, x[|y|..]);
    }
  }

  predicate Usable(output: Option<GitResult>) {
    output.Some? && output.value.exitCode == 0 && |output.value.stdout| <= SIGNED_RECEIPT_BATCH_MAX_BYTES
  }

  ghost predicate IsFraming(output: Bytes, names: seq<Bytes>, replies: seq<Reply>) {
    ValidReplies(names, replies) && output == FrameAll(names, replies)
  }

  lemma RequestsAskable(queries: seq<Args>)
    ensures Askable(ObjectsOf(Requests(queries)))
  {
  }

  lemma PrependTwice(done: seq<Reply>, reply: Reply, rest: Option<seq<Reply>>)
    ensures Prepend(done, Prepend([reply], rest)) == Prepend(done + [reply], rest)
  {
    if rest.Some? {
      assert done + ([reply] + rest.value) == done + [reply] + rest.value;
    }
  }

  /** `done` replies were read up to `offset`; the rest decides whether the output decodes. */
  ghost predicate DecodedSoFar(step: Step, names: seq<Bytes>, i: nat, output: Bytes, offset: nat, done: seq<Reply>)
    requires i <= |names|
  {
    && |done| == i
    && DecodeAllBy(step, names, output, 0) == Prepend(done, DecodeAllBy(step, names[i..], output, offset))
  }

  lemma DecodedFurther(step: Step, names: seq<Bytes>, i: nat, output: Bytes, offset: nat, done: seq<Reply>)
    requires i < |names| && DecodedSoFar(step, names, i, output, offset, done)
    ensures step(names[i], output, offset) == None ==> DecodeAllBy(step, names, output, 0) == None
    ensures step(names[i], output, offset).Some? ==>
              var (reply, next) := step(names[i], output, offset).value;
              DecodedSoFar(step, names, i + 1, output, next, done + [reply])
  {
    assert names[i..][1..] == names[i + 1..];
    if step(names[i], output, offset).Some? {
      var (reply, next) := step(names[i], output, offset).value;
      PrependTwice(done, reply, DecodeAllBy(step, names[i + 1..], output, next));
    }
  }

  lemma DecodedStart(step: Step, names: seq<Bytes>, output: Bytes)
    ensures DecodedSoFar(step, names, 0, output, 0, [])
  {
    assert names[0..] == names;
    var all := DecodeAllBy(step, names, output, 0);
    if all.Some? {
      assert [] + all.value == all.value;
    }
  }

  lemma DecodedEnd(step: Step, names: seq<Bytes>, output: Bytes, offset: nat, done: seq<Reply>)
    requires DecodedSoFar(step, names, |names|, output, offset, done)
    ensures DecodeAllBy(step, names, output, 0) == if offset == |output| then Some(done) else None
  {
    assert names[|names|..] == [] && done + [] == done;
  }

  lemma ObservedNext(requests: seq<BatchRequest>, i: nat, done: seq<Reply>, reply: Reply)
    requires i < |requests| && |done| == i
    ensures ObservedAll(requests[..i + 1], done + [reply])
         == ObservedAll(requests[..i], done) + Observed(requests[i], reply)
  {
    assert requests[..i + 1][..i] == requests[..i] && (done + [reply])[..i] == done;
  }

  /** What the loop returns for an output: the reads of its replies, or nothing. */
  ghost predicate ReadsOf(requests: seq<BatchRequest>, output: Bytes, r: seq<GitRead>) {
    match DecodeAll(ObjectsOf(requests), output)
    case None => r == []
    case Some(replies) => r == ObservedAll(requests, replies)
  }

  /** The decoding loop. */
  method DecodeReplies(requests: seq<BatchRequest>, output: Bytes) returns (r: seq<GitRead>)
    ensures ReadsOf(requests, output, r)
  {
    r := [];
    var offset: nat := 0;
    ghost var names := ObjectsOf(requests);
    ghost var done: seq<Reply> := [];
    DecodedStart(Turn, names, output);
    for i := 0 to |requests|
      invariant offset <= |output|
      invariant DecodedSoFar(Turn, names, i, output, offset, done)
      invariant r == ObservedAll(requests[..i], done)
    {
      var turn := Turn(requests[i].target, output, offset);
      DecodedFurther(Turn, names, i, output, offset, done);
      if turn.None? {
        return [];
      }
      ObservedNext(requests, i, done, turn.value.0);
      done := done + [turn.value.0];
      r := r + Observed(requests[i], turn.value.0);
      offset := turn.value.1;
    }
    assert requests[..|requests|] == requests;
    DecodedEnd(Turn, names, output, offset, done);
    if offset != |output| {
      r := [];
    }
  }

  lemma ReadsOfFraming(requests: seq<BatchRequest>, output: Bytes, r: seq<GitRead>, replies: seq<Reply>)
    requires Askable(ObjectsOf(requests)) && ReadsOf(requests, output, r)
    requires IsFraming(output, ObjectsOf(requests), replies)
    ensures r == ObservedAll(requests, replies)
  {
    DecodeUndoesFraming(ObjectsOf(requests), replies);
  }

  lemma ReadsNeedFraming(requests: seq<BatchRequest>, output: Bytes, r: seq<GitRead>)
    requires Askable(ObjectsOf(requests)) && ReadsOf(requests, output, r) && r != []
    ensures exists replies :: IsFraming(output, ObjectsOf(requests), replies)
  {
    var replies := DecodeAll(ObjectsOf(requests), output).value;
    DecodedWasAllFramed(ObjectsOf(requests), output, replies);
    assert IsFraming(output, ObjectsOf(requests), replies);
  }

  /** Exactly the reads a framed output stands for; nothing for any other output. */
  ghost predicate BatchMeaning(requests: seq<BatchRequest>, output: Bytes, r: seq<GitRead>) {
    && (forall replies :: IsFraming(output, ObjectsOf(requests), replies) ==> r == ObservedAll(requests, replies))
    && (r != [] ==> exists replies :: IsFraming(output, ObjectsOf(requests), replies))
  }

  /** What the batch may return: nothing without a usable output, else what the output stands for. */
  ghost predicate BatchReads(queries: seq<Args>, read: Bytes -> Option<GitResult>, r: seq<GitRead>) {
    var requests := Requests(queries);
    var output := read(Lines(ObjectsOf(requests)));
    if requests == [] || !Usable(output) then r == [] else BatchMeaning(requests, output.value.stdout, r)
  }

  method ReadSignedReceiptBatch(queries: seq<Args>, read: Bytes -> Option<GitResult>) returns (r: seq<GitRead>)
    ensures BatchReads(queries, read, r)
  {
    var requests := Requests(queries);
    if requests == [] {
      return [];
    }
    var output := read(Lines(ObjectsOf(requests)));
    if !Usable(output) {
      return [];
    }
    r := DecodeReplies(requests, output.value.stdout);
    RequestsAskable(queries);
    forall replies | IsFraming(output.value.stdout, ObjectsOf(requests), replies)
      ensures r == ObservedAll(requests, replies)
    {
      ReadsOfFraming(requests, output.value.stdout, r, replies);
    }
    if r != [] {
      ReadsNeedFraming(requests, output.value.stdout, r);
    }
  }

  // ----- the patterns and the framing, byte by byte

  lemma HexDigits(b: Byte)
    ensures IsHex(b) <==> b as char in "0123456789abcdef"
  {
    var digits := "0123456789abcdef";
    if 48 <= b <= 57 {
      assert digits[b - 48] == b as char;
    }
    if 97 <= b <= 102 {
      assert digits[b - 87] == b as char;
    }
  }

  lemma StandsByOctets(p: nat, s: Bytes, i: nat)
    requires p < 0x1_0000 && i < |s|
    ensures p < 0x80 ==> (StandsAt(p, s, i) <==> s[i] == p)
    ensures 0x80 <= p < 0x800 ==>
              (StandsAt(p, s, i) <==> i + 1 < |s| && s[i] == 0xc0 + p / 0x40 && s[i + 1] == 0x80 + p % 0x40)
    ensures p >= 0x800 ==>
              (StandsAt(p, s, i) <==> && i + 2 < |s| && s[i] == 0xe0 + p / 0x1000
                                      && s[i + 1] == 0x80 + p / 0x40 % 0x40 && s[i + 2] == 0x80 + p % 0x40)
  {
    var octets, rest := Encoded(p), s[i..];
    assert StandsAt(p, s, i) <==> |octets| <= |rest| && forall k :: 0 <= k < |octets| ==> octets[k] == rest[k];
    assert forall k :: 0 <= k < |rest| ==> rest[k] == s[i + k];
  }

  predicate BreakAt(s: Bytes, i: nat)
    requires i < |s|
  {
    StandsAt(0x0a, s, i) || StandsAt(0x0d, s, i) || StandsAt(0x2028, s, i) || StandsAt(0x2029, s, i)
  }

  /** The line terminators that a dot does not match. */
  lemma TerminatorPoints(s: Bytes, i: nat)
    requires i < |s|
    ensures TerminatorAt(s, i) <==> BreakAt(s, i)
  {
    StandsByOctets(0x0a, s, i);
    StandsByOctets(0x0d, s, i);
    StandsByOctets(0x2028, s, i);
    StandsByOctets(0x2029, s, i);
  }

  /** NUL, WhiteSpace and LineTerminator of sections 12.2 and 12.3 of ECMA-262. */
  predicate IsBlank(p: nat) {
    || p == 0 || p == 0x20 || 0x09 <= p <= 0x0d || p == 0xa0 || p == 0x1680 || 0x2000 <= p <= 0x200a
    || p == 0x2028 || p == 0x2029 || p == 0x202f || p == 0x205f || p == 0x3000 || p == 0xfeff
  }

  /** The code point that three octets stand for. */
  function PointOf(a: Byte, b: Byte, c: Byte): nat {
    if a >= 0xe0 && b >= 0x80 && c >= 0x80 then (a - 0xe0) * 0x1000 + (b - 0x80) * 0x40 + (c - 0x80) else 0
  }

  lemma BlankStands(s: Bytes, i: nat, p: nat)
    requires i < |s| && IsBlank(p) && StandsAt(p, s, i)
    ensures BlankAt(s, i)
  {
    StandsByOctets(p, s, i);
    if 0x2000 <= p <= 0x200a {
      assert p / 0x1000 == 2 && p / 0x40 == 0x80 && p % 0x40 == p - 0x2000;
    }
  }

  /** A blank is white space, a line terminator or NUL. */
  lemma BlankPoints(s: Bytes, i: nat)
    requires i < |s|
    ensures BlankAt(s, i) <==> exists p: nat :: IsBlank(p) && StandsAt(p, s, i)
  {
    if BlankAt(s, i) {
      var p := if s[i] < 0x80 then s[i] else if s[i] == 0xc2 then 0xa0 else PointOf(s[i], s[i + 1], s[i + 2]);
      assert IsBlank(p);
      StandsByOctets(p, s, i);
    }
    forall p: nat | IsBlank(p) && StandsAt(p, s, i)
      ensures BlankAt(s, i)
    {
      BlankStands(s, i, p);
    }
  }

  /** Bytes as characters. */
  function Text(s: Bytes): (r: string)
    ensures |r| == |s| && forall i :: 0 <= i < |s| ==> r[i] == s[i] as char
  {
    seq(|s|, i requires 0 <= i < |s| => s[i] as char)
  }

  lemma TextOfAscii(s: Bytes, text: string)
    requires forall i :: 0 <= i < |text| ==> text[i] < 256 as char
    ensures s == Ascii(text) <==> Text(s) == text
  {
    if Text(s) == text {
      assert forall i :: 0 <= i < |s| ==> s[i] == text[i] as int;
    }
    if s == Ascii(text) {
      assert forall i :: 0 <= i < |s| ==> Text(s)[i] == text[i];
    }
  }

  lemma TextAppend(a: Bytes, b: Bytes)
    ensures Text(a + b) == Text(a) + Text(b)
  {
  }

  /** An object name: forty hexadecimal digits and `^{commit}`, or a colon and one line. */
  ghost predicate PinnedText(name: Bytes) {
    && |name| > 40 && (forall i :: 0 <= i < 40 ==> Text(name)[i] in "0123456789abcdef")
    && (Text(name[40..]) == "^{commit}"
        || (Text(name)[40] == ':' && |name| > 41
            && forall i :: 41 <= i < |name| ==> !BreakAt(name, i)))
  }

  lemma ObjectIdText(name: Bytes)
    requires |name| >= 40
    ensures IsObjectId(name[..40]) <==> forall i :: 0 <= i < 40 ==> Text(name)[i] in "0123456789abcdef"
  {
    forall i | 0 <= i < 40
      ensures IsHex(name[..40][i]) <==> Text(name)[i] in "0123456789abcdef"
    {
      HexDigits(name[i]);
    }
  }

  lemma OneLineText(name: Bytes)
    ensures (forall i :: 41 <= i < |name| ==> !TerminatorAt(name, i)) <==> forall i :: 41 <= i < |name| ==> !BreakAt(name, i)
  {
    forall i | 0 <= i < |name|
      ensures TerminatorAt(name, i) <==> BreakAt(name, i)
    {
      TerminatorPoints(name, i);
    }
  }

  lemma PinnedNames(name: Bytes)
    ensures IsPinnedName(name) <==> PinnedText(name)
  {
    if |name| > 40 {
      ObjectIdText(name);
      TextOfAscii(name[40..], "^{commit}");
      OneLineText(name);
    }
  }

  /** The two forms of query that are pinned. */
  lemma PinnedQueries(args: Args)
    ensures SignedReceiptObject(args).Some?
       <==> || (|args| == 3 && Text(args[0]) == "cat-file" && Text(args[1]) == "-e" && PinnedText(args[2]))
            || (|args| == 2 && Text(args[0]) == "show" && PinnedText(args[1]))
  {
    if |args| > 0 {
      TextOfAscii(args[0], "cat-file");
      TextOfAscii(args[0], "show");
      PinnedNames(args[|args| - 1]);
    }
    if |args| > 1 {
      TextOfAscii(args[1], "-e");
    }
  }

  lemma {:induction false} DecimalText(n: nat)
    ensures Text(Decimal(n)) == Numeral(n)
  {
    if n >= 10 {
      DecimalText(n / 10);
      TextAppend(Decimal(n / 10), [48 + n % 10]);
    }
  }

  function NameOf(kind: ObjectKind): string {
    match kind
    case Blob => "blob"
    case Tree => "tree"
    case Commit => "commit"
    case Tag => "tag"
  }

  lemma KindText(kind: ObjectKind)
    ensures Text(KindName(kind)) == NameOf(kind)
  {
    TextOfAscii(KindName(kind), NameOf(kind));
  }

  lemma HeaderText(oid: Bytes, kind: ObjectKind, size: nat)
    ensures Text(FoundHeader(oid, kind, size)) == Text(oid) + " " + NameOf(kind) + " " + Numeral(size)
  {
    DecimalText(size);
    KindText(kind);
    var name := KindName(kind);
    TextAppend(oid, [SPACE]);
    TextAppend(oid + [SPACE], name);
    TextAppend(oid + [SPACE] + name, [SPACE]);
    TextAppend(oid + [SPACE] + name + [SPACE], Decimal(size));
    assert Text([SPACE]) == " ";
  }

  /** A header, a newline, a body and a newline. */
  lemma FramedText(header: Bytes, body: Bytes)
    ensures Text(header + [NEWLINE] + body + [NEWLINE]) == Text(header) + "\n" + Text(body) + "\n"
  {
    TextAppend(header, [NEWLINE]);
    TextAppend(header + [NEWLINE], body);
    TextAppend(header + [NEWLINE] + body, [NEWLINE]);
    assert Text([NEWLINE]) == "\n";
  }

  /** Git's answers as they are printed. */
  lemma FrameText(target: Bytes, oid: Bytes, kind: ObjectKind, body: Bytes)
    ensures Text(Frame(target, Missing)) == Text(target) + " missing" + "\n"
    ensures Text(Frame(target, Found(oid, kind, body)))
         == Text(oid) + " " + NameOf(kind) + " " + Numeral(|body|) + "\n" + Text(body) + "\n"
  {
    TextAppend(MissingHeader(target), [NEWLINE]);
    TextAppend(target, Ascii(" missing"));
    TextOfAscii(Ascii(" missing"), " missing");
    HeaderText(oid, kind, |body|);
    FramedText(FoundHeader(oid, kind, |body|), body);
  }

  /** What a batch writes to git: one name a line, in order. */
  lemma {:induction false} LinesText(names: seq<Bytes>, last: Bytes)
    ensures Text(Lines([])) == "" && Text(Lines(names + [last])) == Text(Lines(names)) + Text(last) + "\n"
  {
    var all := names + [last];
    if names == [] {
      assert all == [last] && Lines(all[1..]) == [];
      TextAppend(last, [NEWLINE]);
    } else {
      LinesText(names[1..], last);
      assert all[0] == names[0] && all[1..] == names[1..] + [last];
      assert Text(Lines(all)) == Text(names[0]) + "\n" + Text(Lines(all[1..]));
    }
  }

  /** The bounds, in numbers: 32 MiB of output and bodies of up to 2^53 - 1 bytes. */
  lemma Bounds(output: GitResult, reply: Reply)
    ensures Usable(Some(output)) <==> output.exitCode == 0 && |output.stdout| <= 33554432
    ensures !Usable(None)
    ensures reply.Found? ==> (ValidReply(reply) <==> IsObjectId(reply.oid) && |reply.body| < 9007199254740992)
  {
  }

  /** What a reply gives an eligible query: a commit for its existence, a blob for its content. */
  lemma ObservedExactly(request: BatchRequest, reply: Reply)
    requires Eligible(request.args) && SignedReceiptObject(request.args) == Some(request.target)
    ensures |request.args| == 3 && reply.Found? && reply.kind == Commit
            && Text(request.target)[|request.target| - 9..] == "^{commit}"
            ==> Observed(request, reply) == [GitRead(request.args, GitResult(0, []))]
    ensures |request.args| == 2 && reply.Found? && reply.kind == Blob
            ==> Observed(request, reply) == [GitRead(request.args, GitResult(0, reply.body))]
    ensures Observed(request, reply) != [] ==>
              reply.Found? && reply.kind == if |request.args| == 3 then Commit else Blob
    ensures Observed(request, reply) != [] && |request.args| == 3 ==> Text(request.target)[|request.target| - 9..] == "^{commit}"
  {
    var target := request.target;
    TextOfAscii(request.args[0], "cat-file");
    TextOfAscii(request.args[0], "show");
    TextOfAscii(target[|target| - 9..], "^{commit}");
    assert Text(target[|target| - 9..]) == Text(target)[|target| - 9..];
  }

  /** The requests come in the order in which their queries first appear. */
  lemma {:induction false} RequestsInOrder(queries: seq<Args>, i: nat, j: nat) returns (p: nat)
    requires i < j < |Requests(queries)|
    ensures p < |queries| && queries[p] == Requests(queries)[i].args && Requests(queries)[j].args !in queries[..p + 1]
  {
    var k := |queries| - 1;
    var before := Requests(queries[..k]);
    if j < |before| {
      p := RequestsInOrder(queries[..k], i, j);
      assert queries[..k][..p + 1] == queries[..p + 1];
    } else {
      p := QueryOf(queries[..k], i);
      assert queries[..p + 1] <= queries[..k];
    }
  }

  lemma QueryOf(queries: seq<Args>, i: nat) returns (p: nat)
    requires i < |Requests(queries)|
    ensures p < |queries| && queries[p] == Requests(queries)[i].args
  {
    assert Asked(Requests(queries), Requests(queries)[i].args);
    p :| 0 <= p < |queries| && queries[p] == Requests(queries)[i].args;
  }
}
