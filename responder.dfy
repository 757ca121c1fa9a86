/**
 * The query side of the responder: one received datagram in, the A answers
 * sent for it out. `Replies` is the answer list as a function of the
 * datagram, the host name, the IPv4 table and the receiving interface;
 * `HandleRX` computes the same list the way the daemon does, question by
 * question into an output buffer.
 */
module Responder {
  import opened Bytes
  import opened NameCodec
  import opened Addresses
  import opened IfaceTable
  import opened HostName

  /** The receive buffer: the largest mDNS message of section 6.1 of RFC 6762. */
  const RxBufferSize: nat := 9036
  /** The message header of section 4.1.1 of RFC 1035. */
  const HeaderSize: nat := 12
  const TypeA: nat := 1
  const TypeAAAA: nat := 28

  /** ".local", as the suffix test compares it. */
  const LocalSuffix: seq<byte> := [Dot, 0x6c, 0x6f, 0x63, 0x61, 0x6c]
  /** The label "local". */
  const LocalLabel: seq<byte> := [0x6c, 0x6f, 0x63, 0x61, 0x6c]

  /**
   * The reply header after the id: flags 0x8400 (a response with the
   * authoritative bit, section 18 of RFC 6762), no question, one answer, no
   * authority or additional record.
   */
  const ReplyFlagsAndCounts: seq<byte> := [0x84, 0, 0, 0, 0, 1, 0, 0, 0, 0]
  /**
   * The answer after its name: type A, class IN with the cache-flush bit of
   * section 10.2 of RFC 6762, TTL 240 seconds, four bytes of data.
   */
  const AnswerTrailer: seq<byte> := [0, 1, 0x80, 1, 0, 0, 0, 240, 0, 4]

  /** strlen: the index of the first NUL, or the length when there is none. */
  function StrLen(s: seq<byte>): (n: nat)
    ensures n <= |s|
    ensures forall i :: 0 <= i < n ==> s[i] != Nul
    ensures n < |s| ==> s[n] == Nul
  {
    if s == [] || s[0] == Nul then 0 else 1 + StrLen(s[1..])
  }

  /** Where the scan for the first label stops: at the first '.' or NUL. */
  function FirstStop(s: seq<byte>): (n: nat)
    ensures n <= |s|
    ensures forall i :: 0 <= i < n ==> s[i] != Dot && s[i] != Nul
    ensures n < |s| ==> s[n] == Dot || s[n] == Nul
  {
    if s == [] || s[0] == Dot || s[0] == Nul then 0 else 1 + FirstStop(s[1..])
  }

  /** The length of the name's first label: 0 unless the scan stops at a '.'. */
  function DotLen(s: seq<byte>): nat {
    var k := FirstStop(s);
    if k < |s| && s[k] == Dot then k else 0
  }

  /** The suffix test: at least six bytes before the first NUL, the last six ".local". */
  predicate EndsWithLocal(name: seq<byte>) {
    var n := StrLen(name);
    n >= 6 && name[n - 6 .. n] == LocalSuffix
  }

  /**
   * The host name as the query side sees it: the `hostname` buffer, its
   * length, and whether the host-name file could be consulted.
   */
  datatype HostView = HostView(buffer: seq<byte>, len: nat, available: bool)

  predicate ValidHost(h: HostView) {
    |h.buffer| == HostNameMax + 1 && h.len < |h.buffer|
  }

  /**
   * The match test: a host name whose first byte is set, and a first label
   * that is non-empty, as long as the host name and byte for byte equal to it.
   */
  predicate Matches(h: HostView, name: seq<byte>)
    requires ValidHost(h)
  {
    var dotlen := DotLen(name);
    h.buffer[0] != Nul && dotlen != 0 && dotlen == h.len && h.buffer[..dotlen] == name[..dotlen]
  }

  /** A 16-bit value laid out in host byte order. */
  function HostOrder16(v: nat, bigEndian: bool): (b: seq<byte>)
    requires v < 0x1_0000
    ensures |b| == 2
    ensures bigEndian ==> b[0] as nat * 0x100 + b[1] as nat == v
    ensures !bigEndian ==> b[1] as nat * 0x100 + b[0] as nat == v
  {
    var hi := (v / 0x100) as byte;
    var lo := (v % 0x100) as byte;
    if bigEndian then [hi, lo] else [lo, hi]
  }

  /**
   * The id the reply carries: the query's id read with `ntohs` and stored
   * back without `htons`, so echoed on a big-endian host and byte-swapped on
   * a little-endian one.
   */
  function TxidBytes(buf: seq<byte>, bigEndian: bool): (t: seq<byte>)
    requires 2 <= |buf|
    ensures bigEndian ==> t == buf[..2]
    ensures !bigEndian ==> t == [buf[1], buf[0]]
  {
    HostOrder16(BigEndian16(buf, 0), bigEndian)
  }

  /** The QR bit of the flags word: set in responses, which are dropped. */
  predicate IsResponse(buf: seq<byte>)
    requires 4 <= |buf|
  {
    BigEndian16(buf, 2) >= 0x8000
  }

  /** `htonl`: the identity on a big-endian host, a byte swap on a little-endian one. */
  function Htonl(x: nat, bigEndian: bool): (y: nat)
    requires x < 0x1_0000_0000
    ensures y < 0x1_0000_0000
  {
    if bigEndian then x
    else
      (x % 0x100) * 0x100_0000 + (x / 0x100 % 0x100) * 0x1_0000
      + (x / 0x1_0000 % 0x100) * 0x100 + x / 0x100_0000
  }

  /** An unsigned 32-bit value stored into an `int`: two's complement. */
  function ToInt32(x: nat): (i: int)
    requires x < 0x1_0000_0000
    ensures -0x8000_0000 <= i < 0x8000_0000
    ensures i % 0x1_0000_0000 == x
  {
    if x < 0x8000_0000 then x else x - 0x1_0000_0000
  }

  /** The table index HandleRX uses: `htonl` of the sender's scope id, as an `int`. */
  function IfaceIndex(scopeId: nat, bigEndian: bool): int
    requires scopeId < 0x1_0000_0000
  {
    ToInt32(Htonl(scopeId, bigEndian))
  }

  /** One A answer: header, the question's wire name, a zero, the trailer, the address. */
  function AReply(txid: seq<byte>, wireName: seq<byte>, addr: seq<byte>): seq<byte> {
    txid + ReplyFlagsAndCounts + wireName + [Nul] + AnswerTrailer + addr
  }

  /** What stays fixed across the questions of one datagram. */
  datatype Context = Context(txid: seq<byte>, iface: int, host: HostView, table4: seq<SockAddr>)

  /** The outcome of one question: the datagram stops, or goes on at `next` after sending `answers`. */
  datatype Step = Stop | Next(next: nat, answers: seq<seq<byte>>)

  /**
   * One question at cursor `pos`. A failed decode, or fewer than four bytes
   * between the name's end and the datagram's end, stops the datagram. A
   * name without the ".local" suffix is skipped. An unavailable host name
   * stops the datagram. A matching type-A question with an IPv4 address on
   * the receiving interface is answered; the answer copies the question's
   * name from the wire. The next question is read where the name ended: the
   * type and class are not stepped over.
   */
  function QuestionStep(buf: seq<byte>, r: nat, pos: nat, c: Context): Step
    requires r <= |buf| && ValidHost(c.host)
  {
    var d := Decode(buf, pos, MaxMdnsPath);
    if !d.Ok? || r < d.next + 4 then Stop
    else if !EndsWithLocal(d.name) then Next(d.next, [])
    else if !c.host.available then Stop
    else
      WalkConsumed(buf, pos, [], MaxMdnsPath);
      var entry := Find(c.table4, c.iface);
      if Matches(c.host, d.name) && BigEndian16(buf, d.next) == TypeA && entry.Some? then
        Next(d.next, [AReply(c.txid, buf[pos .. pos + |d.name| + 1], entry.value.addr)])
      else Next(d.next, [])
  }

  /** The question loop from cursor `pos` with `remaining` questions to go. */
  function QuestionLoop(buf: seq<byte>, r: nat, pos: nat, remaining: nat, c: Context): seq<seq<byte>>
    requires r <= |buf| && ValidHost(c.host)
    decreases remaining
  {
    if remaining == 0 then []
    else match QuestionStep(buf, r, pos, c)
      case Stop => []
      case Next(next, answers) => answers + QuestionLoop(buf, r, next, remaining - 1, c)
  }

  /**
   * The answers to one datagram of `r` bytes (`r <= 0`: a failed receive)
   * in a receive buffer `buf`, received on table index `iface`.
   */
  function Replies(buf: seq<byte>, r: int, iface: int, host: HostView, table4: seq<SockAddr>, bigEndian: bool): seq<seq<byte>>
    requires HeaderSize <= |buf| && r <= |buf| && ValidHost(host)
  {
    if r <= 0 || IsResponse(buf) then []
    else QuestionLoop(buf, r, HeaderSize, BigEndian16(buf, 4), Context(TxidBytes(buf, bigEndian), iface, host, table4))
  }

  // ---------------------------------------------------------------------
  // Properties of the specification

  /** A datagram with the QR bit set (first flags byte at least 0x80) gets no answer. */
  lemma ResponsesIgnored(buf: seq<byte>, r: int, iface: int, host: HostView, table4: seq<SockAddr>, bigEndian: bool)
    requires HeaderSize <= |buf| && r <= |buf| && ValidHost(host)
    requires buf[2] >= 0x80
    ensures Replies(buf, r, iface, host, table4, bigEndian) == []
  {
    assert BigEndian16(buf, 2) / 0x100 >= 0x80;
  }

  /**
   * The match test, read off: the host name is non-empty with a set first
   * byte, and the question's name is the host name followed by a '.', where
   * the host name holds neither '.' nor NUL.
   */
  lemma MatchesIff(h: HostView, name: seq<byte>)
    requires ValidHost(h)
    ensures Matches(h, name) <==>
      && h.buffer[0] != Nul && 0 < h.len < |name| && name[h.len] == Dot
      && (forall i :: 0 <= i < h.len ==> h.buffer[i] == name[i] && name[i] != Dot && name[i] != Nul)
  {
    var k := FirstStop(name);
    if Matches(h, name) {
      assert k == h.len;
      forall i | 0 <= i < h.len ensures h.buffer[i] == name[i] {
        assert h.buffer[..k][i] == name[..k][i];
      }
    }
    if && h.buffer[0] != Nul && 0 < h.len < |name| && name[h.len] == Dot
       && (forall i :: 0 <= i < h.len ==> h.buffer[i] == name[i] && name[i] != Dot && name[i] != Nul)
    {
      assert k == h.len;
      assert h.buffer[..k] == name[..k];
    }
  }

  /** ".local" alone never matches: its first label is empty. */
  lemma LocalAloneNeverMatches(h: HostView)
    requires ValidHost(h)
    ensures !Matches(h, LocalSuffix)
  {
    MatchesIff(h, LocalSuffix);
  }

  /** A host name with a '.' in it (a fully qualified one) never matches any question. */
  lemma DottedHostNeverMatches(h: HostView, name: seq<byte>, j: nat)
    requires ValidHost(h) && j < h.len && h.buffer[j] == Dot
    ensures !Matches(h, name)
  {
    MatchesIff(h, name);
  }

  /** An answer with the fixed header that fits the output buffer and ends with the address. */
  predicate WellFormedReply(rep: seq<byte>, txid: seq<byte>, addr: seq<byte>) {
    && 28 <= |rep| <= MaxMdnsPath + 28
    && rep[..2] == txid
    && rep[2 .. 12] == ReplyFlagsAndCounts
    && rep[|rep| - 15 ..] == [Nul] + AnswerTrailer + addr
  }

  /** An answer is `stlen + 28` bytes long for a name of `stlen` bytes, `stlen + 1` of them copied. */
  lemma AReplyShape(txid: seq<byte>, wireName: seq<byte>, addr: seq<byte>)
    requires |txid| == 2 && |addr| == 4 && 0 < |wireName| <= MaxMdnsPath + 1
    ensures |AReply(txid, wireName, addr)| == |wireName| + 27
    ensures WellFormedReply(AReply(txid, wireName, addr), txid, addr)
  {
    var rep := AReply(txid, wireName, addr);
    assert rep[..2] == txid;
    assert rep[2 .. 12] == ReplyFlagsAndCounts;
    assert rep[|rep| - 15 ..] == [Nul] + AnswerTrailer + addr;
  }

  /** A well-formed A answer carrying the receiving interface's IPv4 address. */
  predicate AnswerFor(rep: seq<byte>, c: Context) {
    Find(c.table4, c.iface).Some? && WellFormedReply(rep, c.txid, Find(c.table4, c.iface).value.addr)
  }

  /** Every answer in `reps` is one for the receiving interface. */
  predicate AnswersFor(reps: seq<seq<byte>>, c: Context) {
    forall rep :: rep in reps ==> AnswerFor(rep, c)
  }

  lemma AnswersForAppend(a: seq<seq<byte>>, b: seq<seq<byte>>, c: Context)
    requires AnswersFor(a, c) && AnswersFor(b, c)
    ensures AnswersFor(a + b, c)
  {
    forall rep | rep in a + b ensures AnswerFor(rep, c) {
      assert rep in a || rep in b;
    }
  }

  /** One question yields at most one answer, well formed and carrying the interface's address. */
  lemma StepWellFormed(buf: seq<byte>, r: nat, pos: nat, c: Context)
    requires r <= |buf| && ValidHost(c.host) && |c.txid| == 2
    requires forall i :: 0 <= i < |c.table4| ==> |c.table4[i].addr| == 4
    ensures var s := QuestionStep(buf, r, pos, c);
      s.Next? ==> |s.answers| <= 1 && AnswersFor(s.answers, c)
  {
    var d := Decode(buf, pos, MaxMdnsPath);
    if d.Ok? && r >= d.next + 4 {
      StepAfterDecode(buf, r, pos, c, d.name, d.next);
      var entry := Find(c.table4, c.iface);
      if EndsWithLocal(d.name) && entry.Some? {
        AReplyShape(c.txid, buf[pos .. pos + |d.name| + 1], entry.value.addr);
      }
    }
  }

  /**
   * Each answer to a datagram is a well-formed A answer carrying the
   * receiving interface's IPv4 address, at most `MAX_MDNS_PATH + 28` bytes
   * long, so within the `MAX_MDNS_PATH + 48`-byte output buffer; and there
   * are no more answers than questions.
   */
  lemma {:induction false} RepliesWellFormed(buf: seq<byte>, r: nat, pos: nat, remaining: nat, c: Context)
    requires r <= |buf| && ValidHost(c.host) && |c.txid| == 2
    requires forall i :: 0 <= i < |c.table4| ==> |c.table4[i].addr| == 4
    ensures var reps := QuestionLoop(buf, r, pos, remaining, c);
      |reps| <= remaining && AnswersFor(reps, c)
    decreases remaining
  {
    if remaining > 0 {
      var s := QuestionStep(buf, r, pos, c);
      LoopStep(buf, r, pos, remaining, c);
      StepWellFormed(buf, r, pos, c);
      if s.Next? {
        RepliesWellFormed(buf, r, s.next, remaining - 1, c);
        AnswersForAppend(s.answers, QuestionLoop(buf, r, s.next, remaining - 1, c), c);
      }
    }
  }

  /** Any answer at all means the receiving interface has an IPv4 entry. */
  lemma AnswerNeedsAddress(reps: seq<seq<byte>>, c: Context)
    requires AnswersFor(reps, c) && reps != []
    ensures Find(c.table4, c.iface).Some?
  {
    assert reps[0] in reps;
  }

  /**
   * No query is answered on an interface without an IPv4 entry: in
   * particular none at all while the IPv4 table is still empty, before the
   * first address notification.
   */
  lemma NoAnswerWithoutAddress(buf: seq<byte>, r: int, iface: int, host: HostView, table4: seq<SockAddr>, bigEndian: bool)
    requires HeaderSize <= |buf| && r <= |buf| && ValidHost(host)
    requires forall i :: 0 <= i < |table4| ==> |table4[i].addr| == 4
    requires Find(table4, iface).None?
    ensures Replies(buf, r, iface, host, table4, bigEndian) == []
  {
    if r > 0 && !IsResponse(buf) {
      var c := Context(TxidBytes(buf, bigEndian), iface, host, table4);
      var reps := QuestionLoop(buf, r, HeaderSize, BigEndian16(buf, 4), c);
      RepliesWellFormed(buf, r, HeaderSize, BigEndian16(buf, 4), c);
      if reps != [] {
        AnswerNeedsAddress(reps, c);
      }
    }
  }

  // ---------------------------------------------------------------------
  // Only the datagram's own bytes reach an answer

  /** One question decodes, tests and answers alike in two buffers holding the same datagram. */
  lemma StepAgree(buf: seq<byte>, buf': seq<byte>, r: nat, pos: nat, c: Context)
    requires SameDatagram(buf, buf', r) && ValidHost(c.host)
    ensures QuestionStep(buf, r, pos, c) == QuestionStep(buf', r, pos, c)
  {
    var d := Decode(buf, pos, MaxMdnsPath);
    if d.Ok? && r >= d.next + 4 {
      WalkAgree(buf, buf', pos, [], MaxMdnsPath, r);
      StepAfterDecode(buf, r, pos, c, d.name, d.next);
      StepAfterDecode(buf', r, pos, c, d.name, d.next);
      SliceAgree(buf, buf', r, d.next, d.next + 2);
      assert BigEndian16(buf, d.next) == BigEndian16(buf', d.next) by {
        assert buf[d.next .. d.next + 2][0] == buf[d.next] && buf[d.next .. d.next + 2][1] == buf[d.next + 1];
      }
      if EndsWithLocal(d.name) {
        SliceAgree(buf, buf', r, pos, pos + |d.name| + 1);
      }
    } else {
      WalkAgree(buf', buf, pos, [], MaxMdnsPath, r);
    }
  }

  lemma {:induction false} LoopAgree(buf: seq<byte>, buf': seq<byte>, r: nat, pos: nat, remaining: nat, c: Context)
    requires SameDatagram(buf, buf', r) && ValidHost(c.host)
    ensures QuestionLoop(buf, r, pos, remaining, c) == QuestionLoop(buf', r, pos, remaining, c)
    decreases remaining
  {
    if remaining > 0 {
      StepAgree(buf, buf', r, pos, c);
      var s := QuestionStep(buf, r, pos, c);
      if s.Next? {
        LoopAgree(buf, buf', r, s.next, remaining - 1, c);
      }
    }
  }

  /** A datagram shorter than the header has no room for a question: nothing is sent. */
  lemma ShortLoopEmpty(buf: seq<byte>, r: nat, remaining: nat, c: Context)
    requires r < HeaderSize && r <= |buf| && ValidHost(c.host)
    ensures QuestionLoop(buf, r, HeaderSize, remaining, c) == []
  {
    if Decode(buf, HeaderSize, MaxMdnsPath).Ok? {
      WalkConsumed(buf, HeaderSize, [], MaxMdnsPath);
    }
  }

  /**
   * The answers depend only on the `r` bytes received. Whatever the buffer
   * holds past them from earlier datagrams never reaches an answer: the
   * check that four bytes follow the name within the datagram is what keeps
   * the decoder's unchecked reads out of every reply.
   */
  lemma RepliesOnlyReadDatagram(buf: seq<byte>, buf': seq<byte>, r: int, iface: int, host: HostView,
                                table4: seq<SockAddr>, bigEndian: bool)
    requires HeaderSize <= |buf| && HeaderSize <= |buf'| && r <= |buf| && r <= |buf'| && ValidHost(host)
    requires forall i :: 0 <= i < r ==> buf[i] == buf'[i]
    ensures Replies(buf, r, iface, host, table4, bigEndian) == Replies(buf', r, iface, host, table4, bigEndian)
  {
    if 0 < r < HeaderSize {
      var c := Context(TxidBytes(buf, bigEndian), iface, host, table4);
      var c' := Context(TxidBytes(buf', bigEndian), iface, host, table4);
      ShortLoopEmpty(buf, r, BigEndian16(buf, 4), c);
      ShortLoopEmpty(buf', r, BigEndian16(buf', 4), c');
    } else if r >= HeaderSize {
      assert buf[..6] == buf'[..6] by {
        forall i | 0 <= i < 6 ensures buf[i] == buf'[i] { }
      }
      assert buf[0] == buf'[0] && buf[1] == buf'[1] && buf[2] == buf'[2];
      assert buf[3] == buf'[3] && buf[4] == buf'[4] && buf[5] == buf'[5];
      var c := Context(TxidBytes(buf, bigEndian), iface, host, table4);
      LoopAgree(buf, buf', r, HeaderSize, BigEndian16(buf, 4), c);
    }
  }

  /**
   * The second question is read from the first one's type field. When that
   * type is below 256 (A and AAAA among them) its high byte decodes as the
   * empty name, which is skipped, so a second question never adds an answer.
   */
  lemma SecondQuestionReadsTypeField(buf: seq<byte>, r: nat, pos: nat, c: Context)
    requires r <= |buf| && ValidHost(c.host)
    requires QuestionStep(buf, r, pos, c).Next?
    requires buf[QuestionStep(buf, r, pos, c).next] == Nul
    ensures QuestionLoop(buf, r, pos, 2, c) == QuestionLoop(buf, r, pos, 1, c)
  {
    var next := QuestionStep(buf, r, pos, c).next;
    assert Decode(buf, next, MaxMdnsPath) == Ok([], next + 1);
    assert !EndsWithLocal([]);
    assert QuestionLoop(buf, r, next, 1, c) == [];
  }

  /**
   * The query the daemon exists for: one question for "<host>.local", in
   * any mix of letter case (the decoder lowercases). It is answered exactly
   * when it asks for an A record and the receiving interface has an IPv4
   * address, and the answer holds the question's wire name verbatim, case
   * and all. Any other type, AAAA included, gets no answer.
   */
  lemma AnswerForHost(buf: seq<byte>, r: int, iface: int, h: HostView, table4: seq<SockAddr>, bigEndian: bool,
                      n: seq<byte>, m: seq<byte>, k: seq<byte>, q: seq<byte>)
    requires ValidHost(h) && h.available
    requires 0 < |n| == h.len && h.buffer[..|n|] == n
    requires forall i :: 0 <= i < |n| ==> n[i] != Dot && n[i] != Nul && !IsUpper(n[i])
    requires Lower(m) == n && Lower(k) == LocalLabel && q == Encode([m, k])
    requires HeaderSize + |q| + 4 <= r <= |buf|
    requires buf[HeaderSize .. HeaderSize + |q|] == q
    requires buf[2] < 0x80 && buf[4] == 0 && buf[5] == 1
    ensures Replies(buf, r, iface, h, table4, bigEndian) ==
      if BigEndian16(buf, HeaderSize + |q|) == TypeA && Find(table4, iface).Some? then
        [AReply(TxidBytes(buf, bigEndian), q[..|q| - 1], Find(table4, iface).value.addr)]
      else []
  {
    var name := n + LocalSuffix;
    var next := HeaderSize + |q|;
    HostQuestionDecodes(buf, n, m, k, q);
    var c := Context(TxidBytes(buf, bigEndian), iface, h, table4);
    StepAfterDecode(buf, r, HeaderSize, c, name, next);
    NameIsLocal(n);
    MatchesIff(h, name);
    // the copied wire name is the question's name without its final zero
    SliceWithoutLast(buf, HeaderSize, q);
    assert BigEndian16(buf, 4) == 1 && BigEndian16(buf, 2) < 0x8000;
    LoopStep(buf, r, HeaderSize, 1, c);
  }

  /** The bytes holding `w`, less the last one, hold `w` less its last byte. */
  lemma SliceWithoutLast(buf: seq<byte>, lo: nat, w: seq<byte>)
    requires 0 < |w| && lo + |w| <= |buf| && buf[lo .. lo + |w|] == w
    ensures buf[lo .. lo + |w| - 1] == w[..|w| - 1]
  {
    assert buf[lo .. lo + |w| - 1] == buf[lo .. lo + |w|][..|w| - 1];
  }

  /** A question for "<host>.local" in any letter case decodes to the lowercase name, and ends where its encoding does. */
  lemma HostQuestionDecodes(buf: seq<byte>, n: seq<byte>, m: seq<byte>, k: seq<byte>, q: seq<byte>)
    requires 0 < |n| <= HostNameMax
    requires forall i :: 0 <= i < |n| ==> n[i] != Dot && n[i] != Nul && !IsUpper(n[i])
    requires Lower(m) == n && Lower(k) == LocalLabel && q == Encode([m, k])
    requires HeaderSize + |q| <= |buf| && buf[HeaderSize .. HeaderSize + |q|] == q
    ensures |q| == |n| + 8
    ensures Decode(buf, HeaderSize, MaxMdnsPath) == Ok(n + LocalSuffix, HeaderSize + |q|)
  {
    var ls := [m, k];
    assert WireLabels(ls);
    assert ls[1..] == [k] && [k][1..] == [];
    assert Encode([k]) == [5] + k + [Nul];
    assert FitsBound(0, ls, MaxMdnsPath);
    SliceAt(buf, HeaderSize, q);
    DecodeEncoded(buf, HeaderSize, ls, MaxMdnsPath);
    assert JoinDots(ls) == m + [Dot] + k by {
      assert ls[..1] == [m];
    }
    LowerAppend(m + [Dot], k);
    LowerAppend(m, [Dot]);
    assert Lower([Dot]) == [Dot];
    assert [Dot] + LocalLabel == LocalSuffix;
  }

  /** A host name with neither '.' nor NUL, followed by ".local", passes the suffix test. */
  lemma NameIsLocal(n: seq<byte>)
    requires forall i :: 0 <= i < |n| ==> n[i] != Dot && n[i] != Nul
    ensures StrLen(n + LocalSuffix) == |n| + 6
    ensures EndsWithLocal(n + LocalSuffix)
  {
    LocalSuffixWithoutNul();
    StrLenOfAppend(n, LocalSuffix);
    SuffixOfAppend(n, LocalSuffix);
  }

  /** `strlen` of two runs of bytes without a NUL is their total length. */
  lemma StrLenOfAppend(a: seq<byte>, b: seq<byte>)
    requires forall i :: 0 <= i < |a| ==> a[i] != Nul
    requires forall i :: 0 <= i < |b| ==> b[i] != Nul
    ensures StrLen(a + b) == |a| + |b|
  {
    var s := a + b;
    forall i | 0 <= i < |s| ensures s[i] != Nul {
      if i < |a| {
        assert s[i] == a[i];
      } else {
        assert s[i] == b[i - |a|];
      }
    }
  }

  lemma LocalSuffixWithoutNul()
    ensures forall i :: 0 <= i < |LocalSuffix| ==> LocalSuffix[i] != Nul
  {
  }

  lemma SuffixOfAppend(a: seq<byte>, b: seq<byte>)
    ensures (a + b)[|a| .. |a| + |b|] == b
  {
  }

  /**
   * On a little-endian host the table index is the scope id shifted into the
   * top byte: interface 1 becomes index 16777216, which a table grown one
   * slot per interface index never reaches.
   */
  lemma ScopeIdByteSwapped(scopeId: nat)
    requires 0 < scopeId < 0x80
    ensures IfaceIndex(scopeId, false) == scopeId * 0x100_0000
    ensures IfaceIndex(scopeId, true) == scopeId
    ensures forall t: seq<SockAddr> :: |t| <= 0x100_0000 ==> Find(t, IfaceIndex(scopeId, false)).None?
  {
    assert scopeId / 0x100 == 0;
    assert scopeId / 0x1_0000 == 0;
    assert scopeId / 0x100_0000 == 0;
  }

  // ---------------------------------------------------------------------
  // The daemon's code

  /** The `strlen` of the decoded path. */
  method PathLength(path: array<byte>, len: nat) returns (n: nat)
    requires len < path.Length && path[len] == Nul
    ensures n == StrLen(path[..len])
  {
    n := 0;
    while path[n] != Nul
      invariant n <= len
      invariant forall i :: 0 <= i < n ==> path[i] != Nul
      decreases len - n
    {
      n := n + 1;
    }
    ghost var s := path[..len];
    assert forall i :: 0 <= i < n ==> s[i] != Nul;
    assert n < |s| ==> s[n] == Nul;
  }

  /** The scan for the first '.' of the decoded path, giving `dotlen`. */
  method FirstDotLength(path: array<byte>, len: nat) returns (dotlen: nat)
    requires len < path.Length && path[len] == Nul
    ensures dotlen == DotLen(path[..len])
  {
    var cpp := 0;
    while path[cpp] != Nul && path[cpp] != Dot
      invariant cpp <= len
      invariant forall i :: 0 <= i < cpp ==> path[i] != Nul && path[i] != Dot
      decreases len - cpp
    {
      cpp := cpp + 1;
    }
    ghost var s := path[..len];
    assert FirstStop(s) == cpp by {
      assert forall i :: 0 <= i < cpp ==> s[i] != Dot && s[i] != Nul;
      assert cpp < |s| ==> s[cpp] == Dot || s[cpp] == Nul;
    }
    if path[cpp] == Dot {
      dotlen := cpp;
    } else {
      dotlen := 0;
    }
  }

  /** Writes `b` into `out` at `at`, as the stores and the `memcpy` into `outbuff` do. */
  method Put(out: array<byte>, at: nat, b: seq<byte>)
    requires at + |b| <= out.Length
    modifies out
    ensures out[..at + |b|] == old(out[..at]) + b
  {
    for k := 0 to |b|
      invariant out[..at] == old(out[..at])
      invariant out[at .. at + k] == b[..k]
    {
      out[at + k] := b[k];
      assert out[at .. at + k + 1] == out[at .. at + k] + [b[k]];
      assert b[..k + 1] == b[..k] + [b[k]];
    }
    assert out[..at + |b|] == out[..at] + out[at .. at + |b|];
  }

  /** The reply header: the id as stored, then flags 0x8400 and the four counts, two bytes at a time. */
  method PutHeader(out: array<byte>, txid: seq<byte>)
    requires |txid| == 2 && HeaderSize <= out.Length
    modifies out
    ensures out[..HeaderSize] == txid + ReplyFlagsAndCounts
  {
    Put(out, 0, txid);
    Put(out, 2, [0x84, 0x00]);
    Put(out, 4, [0x00, 0x00]);
    Put(out, 6, [0x00, 0x01]);
    Put(out, 8, [0x00, 0x00]);
    Put(out, 10, [0x00, 0x00]);
  }

  /** After the copied name: the zero, type A, class IN with cache flush, TTL 240, length 4, the address. */
  method PutTrailer(out: array<byte>, o: nat, addr: seq<byte>)
    requires |addr| == 4 && o + 15 <= out.Length
    modifies out
    ensures out[..o + 15] == old(out[..o]) + [Nul] + AnswerTrailer + addr
  {
    Put(out, o, [Nul]);
    Put(out, o + 1, [0x00, 0x01]);
    Put(out, o + 3, [0x80, 0x01]);
    Put(out, o + 5, [0x00, 0x00]);
    Put(out, o + 7, [0x00, 240]);
    Put(out, o + 9, [0x00, 0x04]);
    Put(out, o + 11, addr);
  }

  /** The answer, built in `outbuff` of `MAX_MDNS_PATH + 48` bytes. */
  method BuildAReply(txid: seq<byte>, buffer: array<byte>, namestart: nat, stlen: nat, addr: seq<byte>)
    returns (reply: seq<byte>)
    requires |txid| == 2 && |addr| == 4 && stlen <= MaxMdnsPath
    requires namestart + stlen + 1 <= buffer.Length
    ensures reply == AReply(txid, buffer[namestart .. namestart + stlen + 1], addr)
  {
    var outbuff := new byte[MaxMdnsPath + 48];
    PutHeader(outbuff, txid);
    var name := buffer[namestart .. namestart + stlen + 1];
    Put(outbuff, HeaderSize, name);
    var o := HeaderSize + stlen + 1;
    PutTrailer(outbuff, o, addr);
    reply := outbuff[..o + 15];
  }

  /** The suffix test of HandleRX on the decoded path: its `strlen`, then `strcmp` with ".local". */
  method HasLocalSuffix(path: array<byte>, stlen: nat) returns (b: bool)
    requires stlen < path.Length && path[stlen] == Nul
    ensures b == EndsWithLocal(path[..stlen])
  {
    var pathlen := PathLength(path, stlen);
    ghost var name := path[..stlen];
    if pathlen < 6 {
      return false;
    }
    assert path[pathlen - 6 .. pathlen] == name[pathlen - 6 .. pathlen];
    b := path[pathlen - 6 .. pathlen] == LocalSuffix;
  }

  /** The match test of HandleRX: `hostname[0]`, `dotlen`, `hostnamelen` and the `memcmp`. */
  method MatchesHost(hostname: seq<byte>, hostnamelen: nat, available: bool, path: array<byte>, stlen: nat) returns (b: bool)
    requires ValidHost(HostView(hostname, hostnamelen, available)) && stlen < path.Length && path[stlen] == Nul
    ensures b == Matches(HostView(hostname, hostnamelen, available), path[..stlen])
  {
    var dotlen := FirstDotLength(path, stlen);
    ghost var name := path[..stlen];
    if hostname[0] != Nul && dotlen != 0 && dotlen == hostnamelen {
      assert path[..dotlen] == name[..dotlen];
      b := hostname[..dotlen] == path[..dotlen];
    } else {
      b := false;
    }
  }

  /** `QuestionStep` after a successful decode with room for the type and class. */
  lemma StepAfterDecode(buf: seq<byte>, r: nat, pos: nat, c: Context, name: seq<byte>, next: nat)
    requires r <= |buf| && ValidHost(c.host)
    requires Decode(buf, pos, MaxMdnsPath) == Ok(name, next) && r >= next + 4
    ensures EndsWithLocal(name) ==> pos + |name| + 2 == next <= |buf| && |name| <= MaxMdnsPath
    ensures QuestionStep(buf, r, pos, c) ==
      if !EndsWithLocal(name) then Next(next, [])
      else if !c.host.available then Stop
      else
        var entry := Find(c.table4, c.iface);
        if Matches(c.host, name) && BigEndian16(buf, next) == TypeA && entry.Some? then
          Next(next, [AReply(c.txid, buf[pos .. pos + |name| + 1], entry.value.addr)])
        else Next(next, [])
  {
    WalkConsumed(buf, pos, [], MaxMdnsPath);
    WalkLengthBound(buf, pos, [], MaxMdnsPath);
  }

  /**
   * One pass of the question loop of HandleRX: decode the name at
   * `dataptr` into `path`, apply the suffix and match tests, and build the
   * answer when there is one. `path` is a fresh buffer here rather than one
   * reused across questions; every read of it stays within the name just
   * written, so the difference is not observable.
   */
  method HandleQuestion(buffer: array<byte>, r: int, dataptr: nat, hostname: seq<byte>, hostnamelen: nat,
                        available: bool, ipv4: Option<SockAddr>, txid: seq<byte>, ghost d: seq<byte>, ghost c: Context)
    returns (s: Step)
    requires 0 < r <= buffer.Length && |txid| == 2 && c.txid == txid && buffer[..] == d
    requires c.host == HostView(hostname, hostnamelen, available) && ValidHost(c.host)
    requires ipv4 == Find(c.table4, c.iface) && (ipv4.Some? ==> |ipv4.value.addr| == 4)
    ensures s == QuestionStep(d, r, dataptr, c)
  {
    var namestart := dataptr;
    var path := new byte[MaxMdnsPath + 1];
    var res, stlen := ParseMDNSPath(buffer, dataptr, path, MaxMdnsPath);
    if !res.Ok? {
      return Stop;
    }
    var next := res.next;
    if r - next < 4 {
      return Stop;
    }
    StepAfterDecode(d, r, namestart, c, res.name, next);
    var local := HasLocalSuffix(path, stlen);
    if !local {
      return Next(next, []);
    }
    var recordType := buffer[next] as nat * 0x100 + buffer[next + 1] as nat;
    assert recordType == BigEndian16(d, next);
    if !available {
      return Stop;
    }
    var matched := MatchesHost(hostname, hostnamelen, available, path, stlen);
    s := Next(next, []);
    if matched && recordType == TypeA && ipv4.Some? {
      var reply := BuildAReply(txid, buffer, namestart, stlen, ipv4.value.addr);
      s := Next(next, [reply]);
    }
  }

  /** `QuestionLoop` one question further. */
  lemma LoopStep(buf: seq<byte>, r: nat, pos: nat, remaining: nat, c: Context)
    requires r <= |buf| && ValidHost(c.host) && remaining > 0
    ensures var s := QuestionStep(buf, r, pos, c);
      QuestionLoop(buf, r, pos, remaining, c) ==
        if s.Stop? then [] else s.answers + QuestionLoop(buf, r, s.next, remaining - 1, c)
  {
  }

  /** One pass of the question loop: the rest of the loop is the answers to this question and then to the rest. */
  method NextQuestion(buffer: array<byte>, r: int, dataptr: nat, remaining: nat, hostname: seq<byte>, hostnamelen: nat,
                      available: bool, ipv4: Option<SockAddr>, txid: seq<byte>, ghost d: seq<byte>, ghost c: Context)
    returns (stop: bool, answers: seq<seq<byte>>, next: nat)
    requires 0 < r <= buffer.Length == |d| && |txid| == 2 && c.txid == txid && remaining > 0
    requires forall k :: 0 <= k < |d| ==> buffer[k] == d[k]
    requires c.host == HostView(hostname, hostnamelen, available) && ValidHost(c.host)
    requires ipv4 == Find(c.table4, c.iface) && (ipv4.Some? ==> |ipv4.value.addr| == 4)
    ensures stop ==> QuestionLoop(d, r, dataptr, remaining, c) == []
    ensures !stop ==> QuestionLoop(d, r, dataptr, remaining, c) == answers + QuestionLoop(d, r, next, remaining - 1, c)
  {
    assert buffer[..] == d;
    var s := HandleQuestion(buffer, r, dataptr, hostname, hostnamelen, available, ipv4, txid, d, c);
    LoopStep(d, r, dataptr, remaining, c);
    stop := s.Stop?;
    answers, next := if s.Next? then s.answers else [], if s.Next? then s.next else 0;
  }

  /** The question loop of HandleRX, from the first question after the header. */
  method AnswerQuestions(buffer: array<byte>, r: int, questions: nat, hostname: seq<byte>, hostnamelen: nat,
                         available: bool, ipv4: Option<SockAddr>, txid: seq<byte>, ghost c: Context)
    returns (sent: seq<seq<byte>>)
    requires 0 < r <= buffer.Length && |txid| == 2 && c.txid == txid
    requires c.host == HostView(hostname, hostnamelen, available) && ValidHost(c.host)
    requires ipv4 == Find(c.table4, c.iface) && (ipv4.Some? ==> |ipv4.value.addr| == 4)
    ensures sent == QuestionLoop(buffer[..], r, HeaderSize, questions, c)
  {
    ghost var d := buffer[..];
    ghost var total := QuestionLoop(d, r, HeaderSize, questions, c);
    ghost var tail := total;
    var dataptr := HeaderSize;
    var i := 0;
    sent := [];
    while i < questions
      invariant i <= questions && buffer.Length == |d|
      invariant forall k :: 0 <= k < |d| ==> buffer[k] == d[k]
      invariant tail == QuestionLoop(d, r, dataptr, questions - i, c)
      invariant sent + tail == total
      decreases questions - i
    {
      var stop, answers, next := NextQuestion(buffer, r, dataptr, questions - i, hostname, hostnamelen, available, ipv4, txid, d, c);
      if stop {
        assert sent + [] == sent;
        return;
      }
      ghost var rest := QuestionLoop(d, r, next, questions - i - 1, c);
      AppendAssociates(sent, answers, rest);
      sent, tail := sent + answers, rest;
      dataptr := next;
      i := i + 1;
    }
    assert tail == [] && sent + [] == sent;
  }

  lemma AppendAssociates<T>(a: seq<T>, b: seq<T>, c: seq<T>)
    ensures a + (b + c) == (a + b) + c
  {
  }

  /**
   * HandleRX after the receive: `buffer` holds the `r` bytes received from a
   * sender with scope id `scopeId`; the answers are returned in the order
   * they are sent.
   */
  method HandleRX(buffer: array<byte>, r: int, scopeId: nat, bigEndian: bool, host: Host, available: bool, table: Table)
    returns (sent: seq<seq<byte>>)
    requires buffer.Length == RxBufferSize && r <= RxBufferSize
    requires scopeId < 0x1_0000_0000
    requires host.Valid() && table.Valid() && table.width == 4
    ensures sent == Replies(buffer[..], r, IfaceIndex(scopeId, bigEndian),
      HostView(host.hostname[..], host.hostnamelen, available), table.Contents(), bigEndian)
  {
    if r <= 0 {
      return [];
    }
    ghost var d := buffer[..];
    var iface := IfaceIndex(scopeId, bigEndian);
    var xactionid := buffer[0] as nat * 0x100 + buffer[1] as nat;
    var flags := buffer[2] as nat * 0x100 + buffer[3] as nat;
    var questions := buffer[4] as nat * 0x100 + buffer[5] as nat;
    assert xactionid == BigEndian16(d, 0) && flags == BigEndian16(d, 2) && questions == BigEndian16(d, 4);
    if flags >= 0x8000 {
      return [];
    }
    var txid := HostOrder16(xactionid, bigEndian);
    var hostname, hostnamelen := host.hostname[..], host.hostnamelen;
    ghost var c := Context(txid, iface, HostView(hostname, hostnamelen, available), table.Contents());
    var ipv4 := table.Lookup(iface);
    sent := AnswerQuestions(buffer, r, questions, hostname, hostnamelen, available, ipv4, txid, c);
    assert sent == QuestionLoop(d, r, HeaderSize, questions, c);
  }
}
