/** How a connection learns its packet format from the first bytes (network/packet.go). */
module Detection {
  import opened Bytes
  import opened Bits
  import opened Buffer
  import opened Packets
  import opened CloveFraming
  import opened CloveFramingTheorems

  const HTTP_HEADER_MIN_LENGTH := 16
  const UNIX_MSG := "unixmsg"

  /** The registered parsers. Reading an HTTP request is net/http's: the score of one, the
      packets in the buffer with the bytes they take, and the answer to an upgrade. */
  datatype Parser =
    | CloveParser
    | WebSocketParser(request: bytes -> int)
    | HttpParser(request: bytes -> int, drain: bytes -> Requests)
    | TextParser
    | FdParser

  datatype Requests = Requests(error: Option<NetError>, packets: seq<Packet>, taken: nat)

  datatype Handshake = Ack(ack: bytes) | NoAck(error: NetError)

  datatype Format = Format(tag: string, packetType: string, isDefault: bool, parser: Parser,
                           preprocessor: Option<bytes -> Handshake>)

  // ---------- scores ----------

  /** The first character if it is ASCII, otherwise 0. */
  function ReadAsciiCode(s: bytes): byte {
    if s == [] || s[0] >= 0x80 then 0 else s[0]
  }

  function ProtocolType(s: bytes): nat
    requires |s| >= HEADER_LENGTH
  {
    HeaderWord(s) / 0x1000_0000 % 0x10
  }

  function ProtocolVer(s: bytes): nat
    requires |s| >= HEADER_LENGTH
  {
    HeaderWord(s) / 0x100_0000 % 0x10
  }

  function CloveScore(s: bytes): int {
    if |s| < HEADER_LENGTH then -1
    else if ProtocolType(s) == 0 || ProtocolVer(s) == 0 then 0
    else if PacketLength(s) < HEADER_LENGTH then 0
    else if And(s[0], MASK_FEATURE) != MASK_FEATURE then 0
    else if PacketLength(s) > |s| then 50
    else 99
  }

  /** The HTTP and WebSocket parsers read a request only behind a G or a P. */
  function Score(p: Parser, s: bytes): int {
    match p
    case CloveParser => CloveScore(s)
    case WebSocketParser(request) => RequestScore(request, s)
    case HttpParser(request, _) => RequestScore(request, s)
    case _ => -1
  }

  function RequestScore(request: bytes -> int, s: bytes): int {
    if |s| < HTTP_HEADER_MIN_LENGTH || ReadAsciiCode(s) !in {71, 80} then -1 else request(s)
  }

  method TestMatchScore(b: StandardBuffer) returns (score: int)
    requires b.Valid()
    ensures score == CloveScore(b.Contents())
  {
    score := -1;
    ghost var s := b.Contents();
    var l := b.Len();
    var peekData, n := b.Peek(HEADER_LENGTH);
    if n < HEADER_LENGTH {
      return;
    }
    score := 0;
    assert peekData[1..HEADER_LENGTH] == s[1..HEADER_LENGTH];
    var word := Uint(BigEndian, peekData[1..HEADER_LENGTH]);
    var ptop, ptov, packetLen := word / 0x1000_0000 % 0x10, word / 0x100_0000 % 0x10, word % 0x100_0000;
    if ptop == 0 || ptov == 0 {
      return;
    }
    if packetLen < HEADER_LENGTH {
      return;
    }
    if And(peekData[0], MASK_FEATURE) != MASK_FEATURE {
      return;
    }
    score := if packetLen > l then 50 else 99;
  }

  // ---------- the choice ----------

  predicate Scored(f: Format) {
    f.packetType != UNIX_MSG && !f.isDefault
  }

  /** The first of the formats that scored highest. */
  ghost predicate Best(fs: seq<Format>, s: bytes, i: int) {
    && 0 <= i < |fs| && Scored(fs[i])
    && (forall j :: 0 <= j < |fs| && Scored(fs[j]) ==> Score(fs[j].parser, s) <= Score(fs[i].parser, s))
    && (forall j :: 0 <= j < i && Scored(fs[j]) ==> Score(fs[j].parser, s) < Score(fs[i].parser, s))
  }

  /** The first format that is certain. */
  ghost predicate Certain(fs: seq<Format>, s: bytes, i: int) {
    && 0 <= i < |fs| && Scored(fs[i]) && Score(fs[i].parser, s) == 100
    && forall j :: 0 <= j < i && Scored(fs[j]) ==> Score(fs[j].parser, s) != 100
  }

  ghost predicate NoneScored(fs: seq<Format>, s: bytes) {
    forall j :: 0 <= j < |fs| && Scored(fs[j]) ==> Score(fs[j].parser, s) < 0
  }

  function LastDefault(fs: seq<Format>): Option<Format> {
    if fs == [] then None
    else
      var f := fs[|fs| - 1];
      if f.packetType != UNIX_MSG && f.isDefault then Some(f) else LastDefault(fs[..|fs| - 1])
  }

  /** What DetermineFromBuffer chooses: a certain format; failing that the default if nothing
      scored, and otherwise the best, once it scored 90. */
  ghost predicate Chooses(fs: seq<Format>, s: bytes, r: Option<Format>) {
    if exists i :: Certain(fs, s, i) then exists i :: Certain(fs, s, i) && r == Some(fs[i])
    else if NoneScored(fs, s) then r == LastDefault(fs)
    else exists i :: Best(fs, s, i) && r == if Score(fs[i].parser, s) >= 90 then Some(fs[i]) else None
  }

  /** One parser's TestMatchScore. */
  method MatchScore(p: Parser, b: StandardBuffer) returns (score: int)
    requires b.Valid()
    ensures score == Score(p, b.Contents())
  {
    match p
    case CloveParser => score := TestMatchScore(b);
    case WebSocketParser(request) => score := MatchRequest(request, b);
    case HttpParser(request, _) => score := MatchRequest(request, b);
    case _ => score := -1;
  }

  method MatchRequest(request: bytes -> int, b: StandardBuffer) returns (score: int)
    requires b.Valid()
    ensures score == RequestScore(request, b.Contents())
  {
    var l := b.Len();
    var peekData, n := b.Peek(l);
    assert peekData == b.Contents();
    if n < HTTP_HEADER_MIN_LENGTH {
      return -1;
    }
    var first := ReadAsciiCode(peekData);
    if first != 71 && first != 80 {
      return -1;
    }
    score := request(peekData);
  }

  /** What the loop has found after the formats fs. */
  ghost predicate Scanned(fs: seq<Format>, s: bytes, scorePrev: int, dstPf: Option<Format>, defPf: Option<Format>) {
    && defPf == LastDefault(fs) && scorePrev >= -1
    && (forall j :: 0 <= j < |fs| && Scored(fs[j]) ==> Score(fs[j].parser, s) != 100)
    && if scorePrev < 0 then NoneScored(fs, s)
       else exists i :: Best(fs, s, i) && scorePrev == Score(fs[i].parser, s) && dstPf == Some(fs[i])
  }

  lemma Skipped(fs: seq<Format>, f: Format, s: bytes, scorePrev: int, dstPf: Option<Format>, defPf: Option<Format>)
    requires Scanned(fs, s, scorePrev, dstPf, defPf) && !Scored(f)
    ensures Scanned(fs + [f], s, scorePrev, dstPf, if f.packetType == UNIX_MSG then defPf else Some(f))
  {
    hide Score;
    var all := fs + [f];
    assert all[..|fs|] == fs;
    if scorePrev >= 0 {
      var i :| Best(fs, s, i) && scorePrev == Score(fs[i].parser, s) && dstPf == Some(fs[i]);
      assert Best(all, s, i) && all[i] == fs[i];
    }
  }

  lemma NewBest(fs: seq<Format>, f: Format, s: bytes, scorePrev: int, dstPf: Option<Format>, defPf: Option<Format>)
    requires Scanned(fs, s, scorePrev, dstPf, defPf) && Scored(f)
    requires Score(f.parser, s) != 100 && Score(f.parser, s) > scorePrev
    ensures Scanned(fs + [f], s, Score(f.parser, s), Some(f), defPf)
  {
    hide Score;
    var all := fs + [f];
    assert all[..|fs|] == fs && all[|fs|] == f && LastDefault(all) == LastDefault(fs);
    hide Scored, LastDefault;
    assert forall j :: 0 <= j < |fs| ==> all[j] == fs[j];
    assert Best(all, s, |fs|);
  }

  lemma OldBest(fs: seq<Format>, f: Format, s: bytes, scorePrev: int, dstPf: Option<Format>, defPf: Option<Format>)
    requires Scanned(fs, s, scorePrev, dstPf, defPf) && Scored(f)
    requires Score(f.parser, s) != 100 && Score(f.parser, s) <= scorePrev
    ensures Scanned(fs + [f], s, scorePrev, dstPf, defPf)
  {
    hide Score;
    var all := fs + [f];
    assert all[..|fs|] == fs && all[|fs|] == f && LastDefault(all) == LastDefault(fs);
    hide Scored, LastDefault;
    assert forall j :: 0 <= j < |fs| ==> all[j] == fs[j];
    if scorePrev >= 0 {
      var i :| Best(fs, s, i) && scorePrev == Score(fs[i].parser, s) && dstPf == Some(fs[i]);
      assert Best(all, s, i) && all[i] == fs[i];
    }
  }

  lemma Decided(fs: seq<Format>, s: bytes, scorePrev: int, dstPf: Option<Format>, defPf: Option<Format>)
    requires Scanned(fs, s, scorePrev, dstPf, defPf)
    ensures Chooses(fs, s, if scorePrev < 0 then defPf else if scorePrev >= 90 then dstPf else None)
  {
    hide Score;
    assert scorePrev >= 0 ==> !NoneScored(fs, s);
  }

  lemma CertainNext(fs: seq<Format>, s: bytes, i: nat, scorePrev: int, dstPf: Option<Format>, defPf: Option<Format>)
    requires i < |fs| && Scanned(fs[..i], s, scorePrev, dstPf, defPf)
    requires Scored(fs[i]) && Score(fs[i].parser, s) == 100
    ensures Chooses(fs, s, Some(fs[i]))
  {
    hide Score;
    assert forall j :: 0 <= j < i ==> fs[..i][j] == fs[j];
    assert Certain(fs, s, i);
  }

  method DetermineFromBuffer(fs: seq<Format>, b: StandardBuffer) returns (r: Option<Format>)
    requires b.Valid()
    ensures Chooses(fs, b.Contents(), r)
  {
    hide Score, Scanned, Chooses;
    ghost var s := b.Contents();
    var scorePrev, dstPf, defPf := -1, None, None;
    NothingScanned(s);
    for i := 0 to |fs|
      invariant Scanned(fs[..i], s, scorePrev, dstPf, defPf)
    {
      var pf := fs[i];
      assert fs[..i + 1] == fs[..i] + [pf];
      if pf.packetType == UNIX_MSG {
        Skipped(fs[..i], pf, s, scorePrev, dstPf, defPf);
        continue;
      }
      if pf.isDefault {
        Skipped(fs[..i], pf, s, scorePrev, dstPf, defPf);
        defPf := Some(pf);
        continue;
      }
      var score := MatchScore(pf.parser, b);
      if score == 100 {
        CertainNext(fs, s, i, scorePrev, dstPf, defPf);
        return Some(pf);
      }
      if score > scorePrev {
        NewBest(fs[..i], pf, s, scorePrev, dstPf, defPf);
        dstPf, scorePrev := Some(pf), score;
      } else {
        OldBest(fs[..i], pf, s, scorePrev, dstPf, defPf);
      }
    }
    assert fs[..|fs|] == fs;
    Decided(fs, s, scorePrev, dstPf, defPf);
    if scorePrev < 0 {
      return defPf;
    } else if scorePrev >= 90 {
      return dstPf;
    }
    return None;
  }

  lemma NothingScanned(s: bytes)
    ensures Scanned([], s, -1, None, None)
  {
  }

  lemma ChoiceUnique(fs: seq<Format>, s: bytes, a: Option<Format>, b: Option<Format>)
    requires Chooses(fs, s, a) && Chooses(fs, s, b)
    ensures a == b
  {
    hide Score, Scored;
    if exists i :: Certain(fs, s, i) {
      var i :| Certain(fs, s, i) && a == Some(fs[i]);
      var j :| Certain(fs, s, j) && b == Some(fs[j]);
      assert i == j;
    } else if !NoneScored(fs, s) {
      var i :| Best(fs, s, i) && a == if Score(fs[i].parser, s) >= 90 then Some(fs[i]) else None;
      var j :| Best(fs, s, j) && b == if Score(fs[j].parser, s) >= 90 then Some(fs[j]) else None;
      assert i == j;
    }
  }

  lemma {:induction false} BestExists(fs: seq<Format>, s: bytes)
    ensures NoneScored(fs, s) || exists i :: Best(fs, s, i)
  {
    hide Score, Scored;
    if fs != [] {
      var n := |fs| - 1;
      var front := fs[..n];
      BestExists(front, s);
      if NoneScored(front, s) {
        assert NoneScored(fs, s) || Best(fs, s, n);
      } else {
        var i :| Best(front, s, i);
        assert Best(fs, s, i) || Best(fs, s, n);
      }
    }
  }

  /** The one format, or none, that is chosen. */
  ghost function Determined(fs: seq<Format>, s: bytes): (r: Option<Format>)
    ensures Chooses(fs, s, r)
  {
    if exists i :: Certain(fs, s, i) then
      var i :| Certain(fs, s, i);
      Some(fs[i])
    else if NoneScored(fs, s) then LastDefault(fs)
    else
      BestExists(fs, s);
      var i :| Best(fs, s, i);
      if Score(fs[i].parser, s) >= 90 then Some(fs[i]) else None
  }

  // ---------- Clove streams ----------

  /** The Clove format is registered, once or several times, next to any other formats. */
  ghost predicate CloveRegistered(fs: seq<Format>, clove: Format) {
    && clove in fs && clove.parser == CloveParser && Scored(clove)
    && forall f :: f in fs && f.parser == CloveParser ==> f == clove
  }

  lemma CloveChosen(fs: seq<Format>, clove: Format, s: bytes, r: Option<Format>)
    requires CloveRegistered(fs, clove) && Chooses(fs, s, r)
    requires forall f :: f in fs && f != clove ==> Score(f.parser, s) < 0
    requires 0 <= CloveScore(s) < 100
    ensures r == if CloveScore(s) >= 90 then Some(clove) else None
  {
    hide CloveScore, Scored;
    var k :| 0 <= k < |fs| && fs[k] == clove;
    assert Score(clove.parser, s) == CloveScore(s);
    hide Score;
    assert !NoneScored(fs, s);
    assert forall f :: f in fs ==> Score(f.parser, s) != 100;
    var i :| Best(fs, s, i) && r == if Score(fs[i].parser, s) >= 90 then Some(fs[i]) else None;
    assert fs[i] in fs && Score(fs[k].parser, s) <= Score(fs[i].parser, s);
  }

  /** On five bytes or more that do not start like a request, Clove is chosen exactly when its
      first packet parses and both protocol numbers are set; otherwise nothing is chosen yet.
      The order of the formats does not matter. */
  lemma CloveIffParses(fs: seq<Format>, clove: Format, s: bytes, r: Option<Format>)
    requires CloveRegistered(fs, clove) && Chooses(fs, s, r)
    requires |s| >= HEADER_LENGTH && s[0] !in {71, 80}
    ensures r == if ParseFromBytes(s).Parsed? && ProtocolType(s) != 0 && ProtocolVer(s) != 0 then Some(clove) else None
  {
    hide And, HeaderWord, Chooses;
    CloveChosen(fs, clove, s, r);
  }

  /** On fewer than five bytes no parser has an opinion, and the default format is taken. */
  lemma ShortReadTakesDefault(fs: seq<Format>, s: bytes, r: Option<Format>)
    requires |s| < HEADER_LENGTH && Chooses(fs, s, r)
    ensures r == LastDefault(fs)
  {
  }

  lemma SameHeader(s: bytes, all: bytes)
    requires HEADER_LENGTH <= |s| && s <= all
    ensures HeaderWord(s) == HeaderWord(all) && s[0] == all[0]
  {
    assert s[1..HEADER_LENGTH] == all[1..HEADER_LENGTH];
  }

  /** On a packaged stream nothing is chosen until the first packet is whole, and Clove from
      then on, unless one of the packet's protocol numbers is zero. */
  lemma StreamDetected(fs: seq<Format>, clove: Format, ps: seq<Packet>, s: bytes, r: Option<Format>)
    requires CloveRegistered(fs, clove) && Chooses(fs, s, r)
    requires ps != [] && AllFramable(ps) && s <= Stream(ps) && |s| >= HEADER_LENGTH
    ensures r == if |s| >= |Packaged(ps[0])| && ps[0].protocolType != 0 && ps[0].protocolVer != 0
                 then Some(clove) else None
  {
    hide Chooses, And, Packaged, HeaderWord;
    var p, rest := ps[0], Stream(ps[1..]);
    var all := Packaged(p) + rest;
    PackagedHeader(p, rest);
    FlagsRead(p);
    WordParts(p.protocolType, p.protocolVer, |p.raw| + HEADER_LENGTH);
    SameHeader(s, all);
    CloveIffParses(fs, clove, s, r);
  }
}
