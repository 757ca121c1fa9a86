/**
 * The mDNS name decoder: a length-prefixed label sequence (section 3.1 of
 * RFC 1035) read from a cursor, lowercased and joined with '.' into a bounded
 * output buffer.
 *
 * `Walk` is the decoder as the code runs it; `ReadLabels` and `JoinDots` are
 * an independent, label-level reading of the same wire bytes, and the lemmas
 * below connect the two.
 */
module NameCodec {
  import opened Bytes

  /** HOST_NAME_MAX as Linux defines it. */
  const HostNameMax: nat := 64
  /** MAX_MDNS_PATH: the size of the decoder's output buffer in the source. */
  const MaxMdnsPath: nat := HostNameMax + 8

  /**
   * The outcome of one decode: the name and the cursor just past the zero
   * terminator; the null return for a label that fails the output bound; or
   * a read that would leave the receive buffer, which the code never checks
   * for (undefined behaviour in the source).
   */
  datatype PathResult = Ok(name: seq<byte>, next: nat) | TooLong | PastBuffer

  /** The separator the decoder puts before a label: a '.' unless nothing has been written yet. */
  function Sep(len: nat): (s: seq<byte>)
    ensures |s| == (if len != 0 then 1 else 0)
  {
    if len != 0 then [Dot] else []
  }

  /**
   * The decoder, from cursor `pos`, having already produced `acc`.
   * The bound test only looks at `|acc| + l`: the '.' added before a label is
   * not counted.
   */
  function Walk(buf: seq<byte>, pos: nat, acc: seq<byte>, maxPath: nat): PathResult
    decreases |buf| - pos
  {
    if pos >= |buf| then PastBuffer
    else
      var l := buf[pos] as nat;
      if l == 0 then Ok(acc, pos + 1)
      else if |acc| + l >= maxPath then TooLong
      else if pos + 1 + l > |buf| then PastBuffer
      else
        Walk(buf, pos + 1 + l, acc + Sep(|acc|) + Lower(buf[pos + 1 .. pos + 1 + l]), maxPath)
  }

  /** Decoding a name from scratch, as every caller does. */
  function Decode(buf: seq<byte>, pos: nat, maxPath: nat): PathResult {
    Walk(buf, pos, [], maxPath)
  }

  /** Raw labels of a wire name and the cursor past its terminator, with no output bound. */
  datatype Labels = Labels(labels: seq<seq<byte>>, next: nat) | Truncated

  predicate NonEmptyLabels(ls: seq<seq<byte>>) {
    forall i :: 0 <= i < |ls| ==> |ls[i]| > 0
  }

  function ReadLabels(buf: seq<byte>, pos: nat): (r: Labels)
    ensures r.Labels? ==> pos < r.next <= |buf|
    decreases |buf| - pos
  {
    if pos >= |buf| then Truncated
    else
      var l := buf[pos] as nat;
      if l == 0 then Labels([], pos + 1)
      else if pos + 1 + l > |buf| then Truncated
      else
        match ReadLabels(buf, pos + 1 + l)
        case Truncated => Truncated
        case Labels(rest, nx) => Labels([buf[pos + 1 .. pos + 1 + l]] + rest, nx)
  }

  /** Labels joined by single '.' characters, none leading or trailing. */
  function JoinDots(ls: seq<seq<byte>>): seq<byte>
  {
    if |ls| == 0 then []
    else if |ls| == 1 then ls[0]
    else JoinDots(ls[..|ls| - 1]) + [Dot] + ls[|ls| - 1]
  }

  /**
   * Every label passes the output bound, starting from `n` bytes already
   * written: the length written so far plus the label's length stays below
   * `maxPath`, and the next label starts after a '.' and this label.
   */
  predicate FitsBound(n: nat, ls: seq<seq<byte>>, maxPath: nat)
    decreases |ls|
  {
    ls == [] || (n + |ls[0]| < maxPath && FitsBound(n + |Sep(n)| + |ls[0]|, ls[1..], maxPath))
  }

  lemma JoinDotsSnoc(pre: seq<seq<byte>>, x: seq<byte>)
    ensures JoinDots(pre + [x]) == JoinDots(pre) + (if pre == [] then [] else [Dot]) + x
  {
    var s := pre + [x];
    if pre != [] {
      assert s[..|s| - 1] == pre;
    }
  }

  lemma {:induction false} JoinDotsEmpty(pre: seq<seq<byte>>)
    requires NonEmptyLabels(pre)
    ensures JoinDots(pre) == [] <==> pre == []
  {
    if |pre| > 1 {
      assert |JoinDots(pre)| >= |pre[|pre| - 1]|;
    }
  }

  /** The decoder's accumulator after one more label is the lowered join of one more label. */
  lemma AccumulatorStep(pre: seq<seq<byte>>, x: seq<byte>)
    requires NonEmptyLabels(pre)
    ensures var acc := Lower(JoinDots(pre));
      acc + Sep(|acc|) + Lower(x) == Lower(JoinDots(pre + [x]))
  {
    JoinDotsEmpty(pre);
    JoinDotsSnoc(pre, x);
    var sep: seq<byte> := if pre == [] then [] else [Dot];
    LowerAppend(JoinDots(pre) + sep, x);
    LowerAppend(JoinDots(pre), sep);
    assert Lower(sep) == sep;
  }

  /** A non-empty first label: its bytes, then the labels read after it. */
  lemma ReadLabelsCons(buf: seq<byte>, pos: nat)
    requires ReadLabels(buf, pos).Labels? && buf[pos] != Nul
    ensures var l := buf[pos] as nat;
      && pos + 1 + l <= |buf|
      && ReadLabels(buf, pos + 1 + l).Labels?
      && ReadLabels(buf, pos).labels == [buf[pos + 1 .. pos + 1 + l]] + ReadLabels(buf, pos + 1 + l).labels
      && ReadLabels(buf, pos).next == ReadLabels(buf, pos + 1 + l).next
  {
  }

  /** One label of the decoder, with the accumulator written as a lowered join. */
  lemma WalkLabel(buf: seq<byte>, pos: nat, pre: seq<seq<byte>>, maxPath: nat)
    requires NonEmptyLabels(pre) && pos < |buf| && buf[pos] != Nul
    requires |Lower(JoinDots(pre))| + buf[pos] as nat < maxPath && pos + 1 + buf[pos] as nat <= |buf|
    ensures var next := pos + 1 + buf[pos] as nat;
      Walk(buf, pos, Lower(JoinDots(pre)), maxPath) == Walk(buf, next, Lower(JoinDots(pre + [buf[pos + 1 .. next]])), maxPath)
  {
    AccumulatorStep(pre, buf[pos + 1 .. pos + 1 + buf[pos] as nat]);
  }

  /** What the decoder yields for a complete name, once `pre` has been decoded. */
  ghost function FromLabels(pre: seq<seq<byte>>, ls: seq<seq<byte>>, next: nat, maxPath: nat): PathResult {
    if FitsBound(|JoinDots(pre)|, ls, maxPath) then Ok(Lower(JoinDots(pre + ls)), next) else TooLong
  }

  /** The join of one more label is longer by the label and, unless it was empty, a '.'. */
  lemma JoinDotsLength(pre: seq<seq<byte>>, x: seq<byte>)
    requires NonEmptyLabels(pre)
    ensures |JoinDots(pre + [x])| == |JoinDots(pre)| + |Sep(|JoinDots(pre)|)| + |x|
  {
    JoinDotsEmpty(pre);
    JoinDotsSnoc(pre, x);
  }

  /** `FromLabels` one label further: that label passes the bound, or the decode is null. */
  lemma FromLabelsCons(pre: seq<seq<byte>>, x: seq<byte>, rest: seq<seq<byte>>, next: nat, maxPath: nat)
    requires NonEmptyLabels(pre)
    ensures FromLabels(pre, [x] + rest, next, maxPath) ==
      if |JoinDots(pre)| + |x| < maxPath then FromLabels(pre + [x], rest, next, maxPath) else TooLong
  {
    var ls := [x] + rest;
    assert ls[0] == x && ls[1..] == rest;
    JoinDotsLength(pre, x);
    assert pre + [x] + rest == pre + ls;
  }

  /** The inductive step of `WalkFromLabels`: one label, given the claim for the labels after it. */
  lemma WalkFromLabelsStep(buf: seq<byte>, pos: nat, pre: seq<seq<byte>>, maxPath: nat)
    requires NonEmptyLabels(pre)
    requires ReadLabels(buf, pos).Labels? && buf[pos] != Nul
    requires var next := pos + 1 + buf[pos] as nat;
      && next <= |buf| && ReadLabels(buf, next).Labels?
      && Walk(buf, next, Lower(JoinDots(pre + [buf[pos + 1 .. next]])), maxPath) ==
           FromLabels(pre + [buf[pos + 1 .. next]], ReadLabels(buf, next).labels, ReadLabels(buf, next).next, maxPath)
    ensures Walk(buf, pos, Lower(JoinDots(pre)), maxPath) ==
      FromLabels(pre, ReadLabels(buf, pos).labels, ReadLabels(buf, pos).next, maxPath)
  {
    ReadLabelsCons(buf, pos);
    var next := pos + 1 + buf[pos] as nat;
    var x := buf[pos + 1 .. next];
    FromLabelsCons(pre, x, ReadLabels(buf, next).labels, ReadLabels(buf, next).next, maxPath);
    if |JoinDots(pre)| + |x| < maxPath {
      WalkLabel(buf, pos, pre, maxPath);
    } else {
      WalkLabelTooLong(buf, pos, pre, maxPath);
    }
  }

  /** A label that fails the bound makes the decoder return null. */
  lemma WalkLabelTooLong(buf: seq<byte>, pos: nat, pre: seq<seq<byte>>, maxPath: nat)
    requires pos < |buf| && buf[pos] != Nul
    requires |JoinDots(pre)| + buf[pos] as nat >= maxPath
    ensures Walk(buf, pos, Lower(JoinDots(pre)), maxPath) == TooLong
  {
  }

  /**
   * The decoder characterised label by label: when the wire bytes hold a
   * complete name, the decoder returns null exactly when some label fails the
   * bound, and otherwise the labels in wire order, lowercased and joined by
   * '.', with the cursor just past the zero terminator.
   */
  lemma {:induction false} WalkFromLabels(buf: seq<byte>, pos: nat, pre: seq<seq<byte>>, maxPath: nat)
    requires NonEmptyLabels(pre)
    requires ReadLabels(buf, pos).Labels?
    ensures Walk(buf, pos, Lower(JoinDots(pre)), maxPath) ==
      FromLabels(pre, ReadLabels(buf, pos).labels, ReadLabels(buf, pos).next, maxPath)
    decreases |buf| - pos
  {
    if buf[pos] == Nul {
      assert pre + [] == pre;
    } else {
      ReadLabelsCons(buf, pos);
      var next := pos + 1 + buf[pos] as nat;
      WalkFromLabels(buf, next, pre + [buf[pos + 1 .. next]], maxPath);
      WalkFromLabelsStep(buf, pos, pre, maxPath);
    }
  }

  /** `WalkFromLabels` for a decode from scratch. */
  lemma DecodeFromLabels(buf: seq<byte>, pos: nat, maxPath: nat)
    requires ReadLabels(buf, pos).Labels?
    ensures var ls := ReadLabels(buf, pos).labels;
      Decode(buf, pos, maxPath) ==
        if FitsBound(0, ls, maxPath) then Ok(Lower(JoinDots(ls)), ReadLabels(buf, pos).next)
        else TooLong
  {
    assert Lower(JoinDots([])) == [];
    WalkFromLabels(buf, pos, [], maxPath);
    assert [] + ReadLabels(buf, pos).labels == ReadLabels(buf, pos).labels;
  }

  /** Labels the wire format can carry: each one non-empty and its length one byte. */
  predicate WireLabels(ls: seq<seq<byte>>)
    decreases |ls|
  {
    ls == [] || (0 < |ls[0]| < 0x100 && WireLabels(ls[1..]))
  }

  /** The wire form of a name: each label after its length byte, then the zero terminator. */
  function Encode(ls: seq<seq<byte>>): (w: seq<byte>)
    requires WireLabels(ls)
    ensures |w| > 0
  {
    if ls == [] then [Nul] else [|ls[0]| as byte] + ls[0] + Encode(ls[1..])
  }

  /** The bytes `w` sit in `buf` from `pos` on. */
  ghost predicate At(buf: seq<byte>, pos: nat, w: seq<byte>) {
    pos + |w| <= |buf| && forall k :: 0 <= k < |w| ==> buf[pos + k] == w[k]
  }

  /** `At` is the slice of `buf` at `pos` being `w`. */
  lemma SliceAt(buf: seq<byte>, pos: nat, w: seq<byte>)
    requires pos + |w| <= |buf|
    ensures At(buf, pos, w) <==> buf[pos .. pos + |w|] == w
  {
    var slice := buf[pos .. pos + |w|];
    if At(buf, pos, w) {
      assert forall k :: 0 <= k < |w| ==> slice[k] == w[k];
    }
  }

  /** The first label of an encoded name and the encoding of the rest, where the name sits. */
  lemma EncodedParts(buf: seq<byte>, pos: nat, ls: seq<seq<byte>>)
    requires WireLabels(ls) && ls != [] && At(buf, pos, Encode(ls))
    ensures var l := |ls[0]|;
      && WireLabels(ls[1..])
      && |Encode(ls)| == 1 + l + |Encode(ls[1..])|
      && buf[pos] as nat == l
      && buf[pos + 1 .. pos + 1 + l] == ls[0]
      && At(buf, pos + 1 + l, Encode(ls[1..]))
  {
    var w, x, tail := Encode(ls), ls[0], Encode(ls[1..]);
    assert w == [|x| as byte] + x + tail;
    assert buf[pos] == w[0];
    forall k | 0 <= k < |x| ensures buf[pos + 1 .. pos + 1 + |x|][k] == x[k] {
      assert buf[pos + 1 + k] == w[1 + k];
    }
    forall k | 0 <= k < |tail| ensures buf[pos + 1 + |x| + k] == tail[k] {
      assert buf[pos + (1 + |x| + k)] == w[1 + |x| + k];
    }
  }

  /** A label `x` in the buffer, followed by a name that reads as `more`, reads as `x` then `more`. */
  lemma ReadLabelsPrepend(buf: seq<byte>, pos: nat, x: seq<byte>, more: seq<seq<byte>>, next: nat)
    requires pos < |buf| && buf[pos] as nat == |x| && 0 < |x| && pos + 1 + |x| <= |buf|
    requires buf[pos + 1 .. pos + 1 + |x|] == x
    requires ReadLabels(buf, pos + 1 + |x|) == Labels(more, next)
    ensures ReadLabels(buf, pos) == Labels([x] + more, next)
  {
  }

  /** A non-empty sequence is its head followed by its tail. */
  lemma HeadTail(ls: seq<seq<byte>>)
    requires ls != []
    ensures [ls[0]] + ls[1..] == ls
  {
  }

  /**
   * `ls` sits in `buf` from `pos` on in wire form, read label by label: each
   * label after its length byte, then the zero terminator.
   */
  ghost predicate EncodedAt(buf: seq<byte>, pos: nat, ls: seq<seq<byte>>)
    decreases |ls|
  {
    && pos < |buf|
    && if ls == [] then buf[pos] == Nul
       else
         var l := |ls[0]|;
         && buf[pos] as nat == l && pos + 1 + l <= |buf|
         && buf[pos + 1 .. pos + 1 + l] == ls[0]
         && EncodedAt(buf, pos + 1 + l, ls[1..])
  }

  /** The bytes of `Encode(ls)` at `pos` are `ls` in wire form there. */
  lemma {:induction false} EncodedAtOfAt(buf: seq<byte>, pos: nat, ls: seq<seq<byte>>)
    requires WireLabels(ls) && At(buf, pos, Encode(ls))
    ensures EncodedAt(buf, pos, ls)
    decreases |ls|
  {
    if ls == [] {
      assert buf[pos + 0] == Encode(ls)[0];
    } else {
      EncodedParts(buf, pos, ls);
      EncodedAtOfAt(buf, pos + 1 + |ls[0]|, ls[1..]);
    }
  }

  /** Conversely, `ls` in wire form at `pos` is the bytes of `Encode(ls)` there. */
  lemma {:induction false} AtOfEncodedAt(buf: seq<byte>, pos: nat, ls: seq<seq<byte>>)
    requires WireLabels(ls) && EncodedAt(buf, pos, ls)
    ensures At(buf, pos, Encode(ls))
    decreases |ls|
  {
    if ls == [] {
      assert buf[pos + 0] == Encode(ls)[0];
    } else {
      AtOfEncodedAt(buf, pos + 1 + |ls[0]|, ls[1..]);
      EncodeAt(buf, pos, ls);
    }
  }

  /** Reading back a name in wire form gives its labels and ends just past it. */
  lemma {:induction false} ReadEncoded(buf: seq<byte>, pos: nat, ls: seq<seq<byte>>)
    requires WireLabels(ls) && EncodedAt(buf, pos, ls)
    ensures ReadLabels(buf, pos) == Labels(ls, pos + |Encode(ls)|)
    decreases |ls|
  {
    if ls != [] {
      var x, more := ls[0], ls[1..];
      EncodedAtParts(buf, pos, ls);
      ReadEncoded(buf, pos + 1 + |x|, more);
      ReadLabelsPrepend(buf, pos, x, more, pos + 1 + |x| + |Encode(more)|);
      HeadTail(ls);
    }
  }

  /** The first label of a name in wire form, and the rest in wire form after it. */
  lemma EncodedAtParts(buf: seq<byte>, pos: nat, ls: seq<seq<byte>>)
    requires WireLabels(ls) && ls != [] && EncodedAt(buf, pos, ls)
    ensures var l := |ls[0]|;
      && buf[pos] as nat == l && 0 < l && pos + 1 + l <= |buf|
      && buf[pos + 1 .. pos + 1 + l] == ls[0]
      && WireLabels(ls[1..]) && EncodedAt(buf, pos + 1 + l, ls[1..])
      && |Encode(ls)| == 1 + l + |Encode(ls[1..])|
  {
  }

  /** One label in front of a name in wire form, and what that does to the encoding's length. */
  lemma EncodedAtCons(buf: seq<byte>, pos: nat, x: seq<byte>, rest: seq<seq<byte>>)
    requires 0 < |x| < 0x100 && WireLabels(rest)
    requires pos < |buf| && buf[pos] as nat == |x| && pos + 1 + |x| <= |buf|
    requires buf[pos + 1 .. pos + 1 + |x|] == x && EncodedAt(buf, pos + 1 + |x|, rest)
    ensures WireLabels([x] + rest) && EncodedAt(buf, pos, [x] + rest)
    ensures |Encode([x] + rest)| == 1 + |x| + |Encode(rest)|
  {
    var ls := [x] + rest;
    assert ls[0] == x && ls[1..] == rest;
  }

  /** The labels a read returns sit in wire form where it read them, and it ends just past them. */
  lemma {:induction false} ReadIsEncoded(buf: seq<byte>, pos: nat)
    requires ReadLabels(buf, pos).Labels?
    ensures var r := ReadLabels(buf, pos);
      WireLabels(r.labels) && EncodedAt(buf, pos, r.labels) && r.next == pos + |Encode(r.labels)|
    decreases |buf| - pos
  {
    if buf[pos] != Nul {
      var l := buf[pos] as nat;
      ReadLabelsCons(buf, pos);
      ReadIsEncoded(buf, pos + 1 + l);
      EncodedAtCons(buf, pos, buf[pos + 1 .. pos + 1 + l], ReadLabels(buf, pos + 1 + l).labels);
    }
  }

  /** The encoding of a first label followed by the encoding of the rest, where both sit. */
  lemma EncodeAt(buf: seq<byte>, pos: nat, ls: seq<seq<byte>>)
    requires WireLabels(ls) && ls != []
    requires pos < |buf| && buf[pos] as nat == |ls[0]|
    requires pos + 1 + |ls[0]| <= |buf| && buf[pos + 1 .. pos + 1 + |ls[0]|] == ls[0]
    requires At(buf, pos + 1 + |ls[0]|, Encode(ls[1..]))
    ensures At(buf, pos, Encode(ls))
  {
    var w, x, tail := Encode(ls), ls[0], Encode(ls[1..]);
    assert w == [|x| as byte] + x + tail;
    forall k | 0 <= k < |w| ensures buf[pos + k] == w[k] {
      if k == 0 {
      } else if k <= |x| {
        assert buf[pos + 1 .. pos + 1 + |x|][k - 1] == x[k - 1];
      } else {
        assert buf[pos + 1 + |x| + (k - 1 - |x|)] == tail[k - 1 - |x|];
      }
    }
  }

  /** Conversely, the bytes a read consumes are exactly the encoding of what it read. */
  lemma EncodeOfRead(buf: seq<byte>, pos: nat)
    requires ReadLabels(buf, pos).Labels?
    ensures var r := ReadLabels(buf, pos);
      WireLabels(r.labels) && At(buf, pos, Encode(r.labels)) && r.next == pos + |Encode(r.labels)|
  {
    ReadIsEncoded(buf, pos);
    AtOfEncodedAt(buf, pos, ReadLabels(buf, pos).labels);
  }

  /**
   * The round trip: decoding an encoded name that passes the output bound
   * gives its labels lowercased and joined by '.', and the cursor past it.
   */
  lemma DecodeEncoded(buf: seq<byte>, pos: nat, ls: seq<seq<byte>>, maxPath: nat)
    requires WireLabels(ls) && FitsBound(0, ls, maxPath) && At(buf, pos, Encode(ls))
    ensures Decode(buf, pos, maxPath) == Ok(Lower(JoinDots(ls)), pos + |Encode(ls)|)
  {
    EncodedAtOfAt(buf, pos, ls);
    ReadEncoded(buf, pos, ls);
    DecodeFromLabels(buf, pos, maxPath);
  }

  /** Wire bytes that end before the name's terminator never decode. */
  lemma {:induction false} WalkTruncated(buf: seq<byte>, pos: nat, acc: seq<byte>, maxPath: nat)
    requires ReadLabels(buf, pos).Truncated?
    ensures !Walk(buf, pos, acc, maxPath).Ok?
    decreases |buf| - pos
  {
    if pos < |buf| {
      var l := buf[pos] as nat;
      if |acc| + l < maxPath && pos + 1 + l <= |buf| {
        WalkTruncated(buf, pos + 1 + l, acc + Sep(|acc|) + Lower(buf[pos + 1 .. pos + 1 + l]), maxPath);
      }
    }
  }

  /**
   * The output bound as the code enforces it: a decoded name is at most
   * `maxPath` bytes long. Not strictly less, because the '.' is not counted.
   */
  lemma {:induction false} WalkLengthBound(buf: seq<byte>, pos: nat, acc: seq<byte>, maxPath: nat)
    requires |acc| <= maxPath
    ensures Walk(buf, pos, acc, maxPath).Ok? ==> |Walk(buf, pos, acc, maxPath).name| <= maxPath
    decreases |buf| - pos
  {
    if pos < |buf| {
      var l := buf[pos] as nat;
      if l != 0 && |acc| + l < maxPath && pos + 1 + l <= |buf| {
        WalkLengthBound(buf, pos + 1 + l, acc + Sep(|acc|) + Lower(buf[pos + 1 .. pos + 1 + l]), maxPath);
      }
    }
  }

  /**
   * A name of exactly MAX_MDNS_PATH bytes passes the bound: a 63-byte label
   * then an 8-byte label. Its terminating NUL then goes to index
   * MAX_MDNS_PATH, one past a buffer of MAX_MDNS_PATH bytes.
   */
  lemma DecodedLengthCanReachMax()
    ensures var buf := [63 as byte] + seq(63, _ => LowerA) + [8 as byte] + seq(8, _ => LowerA) + [Nul];
      Decode(buf, 0, MaxMdnsPath).Ok? && |Decode(buf, 0, MaxMdnsPath).name| == MaxMdnsPath
  {
    var buf := [63 as byte] + seq(63, _ => LowerA) + [8 as byte] + seq(8, _ => LowerA) + [Nul];
    assert |buf| == 74 && buf[0] == 63 && buf[64] == 8 && buf[73] == Nul;
    var first := Lower(buf[1 .. 64]);
    var second := first + [Dot] + Lower(buf[65 .. 73]);
    assert [] + [] + first == first;
    assert Walk(buf, 0, [], MaxMdnsPath) == Walk(buf, 64, [] + [] + first, MaxMdnsPath);
    assert Walk(buf, 64, first, MaxMdnsPath) == Walk(buf, 73, second, MaxMdnsPath);
    assert |second| == 72;
  }

  /**
   * The cursor a successful decode returns lies just past the zero terminator,
   * `|name| + 2` bytes after the start for a non-empty name (one length byte
   * per label, one terminator, and one '.' fewer than labels) and one byte
   * after it for the empty name.
   */
  lemma {:induction false} WalkConsumed(buf: seq<byte>, pos: nat, acc: seq<byte>, maxPath: nat)
    requires Walk(buf, pos, acc, maxPath).Ok?
    ensures var r := Walk(buf, pos, acc, maxPath);
      && |acc| <= |r.name|
      && r.next == pos + |r.name| - |acc| + 1 + (if acc == [] && r.name != [] then 1 else 0)
      && r.next <= |buf| && buf[r.next - 1] == Nul
    decreases |buf| - pos
  {
    var l := buf[pos] as nat;
    if l != 0 {
      WalkConsumed(buf, pos + 1 + l, acc + Sep(|acc|) + Lower(buf[pos + 1 .. pos + 1 + l]), maxPath);
    }
  }

  /** Two buffers agree at index `i`: both end before it, or both hold the same byte there. */
  ghost predicate SameAt(buf: seq<byte>, buf': seq<byte>, i: nat) {
    (i < |buf| <==> i < |buf'|) && (i < |buf| ==> buf[i] == buf'[i])
  }

  /**
   * The decoder reads no byte more than `maxPath - |acc| + 2` positions from
   * its cursor (one fewer once a label has been decoded): two buffers that
   * agree on that window decode alike. Without an input end check this
   * window is the only limit on what it reads.
   */
  lemma {:induction false} WalkReadsWindow(buf: seq<byte>, buf': seq<byte>, pos: nat, acc: seq<byte>, maxPath: nat)
    requires |acc| <= maxPath
    requires forall i :: pos <= i < pos + maxPath - |acc| + (if acc == [] then 2 else 1) ==> SameAt(buf, buf', i)
    ensures Walk(buf, pos, acc, maxPath) == Walk(buf', pos, acc, maxPath)
    decreases |buf| - pos
  {
    assert SameAt(buf, buf', pos);
    if pos < |buf| {
      var l := buf[pos] as nat;
      if l != 0 && |acc| + l < maxPath {
        assert SameAt(buf, buf', pos + l);
        if pos + 1 + l <= |buf| {
          forall i | pos + 1 <= i < pos + 1 + l ensures buf[i] == buf'[i] {
            assert SameAt(buf, buf', i);
          }
          assert buf[pos + 1 .. pos + 1 + l] == buf'[pos + 1 .. pos + 1 + l];
          WalkReadsWindow(buf, buf', pos + 1 + l, acc + Sep(|acc|) + Lower(buf[pos + 1 .. pos + 1 + l]), maxPath);
        }
      }
    }
  }

  /** Two buffers agree on their first `r` bytes. */
  ghost predicate SameDatagram(buf: seq<byte>, buf': seq<byte>, r: nat) {
    r <= |buf| && r <= |buf'| && forall i :: 0 <= i < r ==> buf[i] == buf'[i]
  }

  lemma SliceAgree(buf: seq<byte>, buf': seq<byte>, r: nat, lo: nat, hi: nat)
    requires SameDatagram(buf, buf', r) && lo <= hi <= r
    ensures buf[lo .. hi] == buf'[lo .. hi]
  {
    forall i | lo <= i < hi ensures buf[i] == buf'[i] { }
  }

  /**
   * A decode that ends within the first `r` bytes reads none past them, so
   * it decodes alike in any buffer that agrees on those bytes.
   */
  lemma {:induction false} WalkWithin(buf: seq<byte>, buf': seq<byte>, pos: nat, acc: seq<byte>, maxPath: nat, r: nat)
    requires SameDatagram(buf, buf', r)
    requires Walk(buf, pos, acc, maxPath).Ok? && Walk(buf, pos, acc, maxPath).next <= r
    ensures Walk(buf', pos, acc, maxPath) == Walk(buf, pos, acc, maxPath)
    decreases |buf| - pos
  {
    WalkConsumed(buf, pos, acc, maxPath);
    var l := buf[pos];
    assert pos < r && buf'[pos] == l;
    if l != Nul {
      var next := pos + 1 + l as nat;
      var acc' := acc + Sep(|acc|) + Lower(buf[pos + 1 .. next]);
      WalkStep(buf, pos, acc, maxPath);
      WalkConsumed(buf, next, acc', maxPath);
      SliceAgree(buf, buf', r, pos + 1, next);
      WalkStep(buf', pos, acc, maxPath);
      WalkWithin(buf, buf', next, acc', maxPath, r);
    }
  }

  /** `WalkWithin` as an implication, for callers that do not yet know how the decode went. */
  lemma WalkAgree(buf: seq<byte>, buf': seq<byte>, pos: nat, acc: seq<byte>, maxPath: nat, r: nat)
    requires SameDatagram(buf, buf', r)
    ensures Walk(buf, pos, acc, maxPath).Ok? && Walk(buf, pos, acc, maxPath).next <= r ==>
      Walk(buf', pos, acc, maxPath) == Walk(buf, pos, acc, maxPath)
  {
    if Walk(buf, pos, acc, maxPath).Ok? && Walk(buf, pos, acc, maxPath).next <= r {
      WalkWithin(buf, buf', pos, acc, maxPath, r);
    }
  }

  /** The label copy of ParseMDNSPath: `l` bytes from `dat[pos..]`, lowercased, to `path[len..]`. */
  method CopyLabel(dat: array<byte>, pos: nat, path: array<byte>, len: nat, l: nat)
    requires pos + l <= dat.Length && len + l <= path.Length
    requires dat != path
    modifies path
    ensures path[..len] == old(path[..len])
    ensures path[len .. len + l] == Lower(dat[pos .. pos + l])
  {
    for j := 0 to l
      invariant path[..len] == old(path[..len])
      invariant path[len .. len + j] == Lower(dat[pos .. pos + j])
    {
      if UpperA <= dat[pos + j] <= UpperZ {
        path[len + j] := dat[pos + j] - UpperA + LowerA;
      } else {
        path[len + j] := dat[pos + j];
      }
      assert path[len .. len + j + 1] == path[len .. len + j] + [path[len + j]];
      assert dat[pos .. pos + j + 1] == dat[pos .. pos + j] + [dat[pos + j]];
      LowerAppend(dat[pos .. pos + j], [dat[pos + j]]);
    }
  }

  /** One label of the decoder, for a label that passes the bound and lies inside the buffer. */
  lemma WalkStep(d: seq<byte>, pos: nat, acc: seq<byte>, maxPath: nat)
    requires pos < |d| && d[pos] != Nul
    requires |acc| + d[pos] as nat < maxPath && pos + 1 + d[pos] as nat <= |d|
    ensures var next := pos + 1 + d[pos] as nat;
      Walk(d, pos, acc, maxPath) == Walk(d, next, acc + Sep(|acc|) + Lower(d[pos + 1 .. next]), maxPath)
  {
  }

  /**
   * The body of one pass of ParseMDNSPath after its checks: the '.', the
   * lowercased label and the NUL terminator written after the `len` bytes so far.
   */
  method AppendLabel(dat: array<byte>, pos: nat, path: array<byte>, len: nat, l: nat) returns (len': nat)
    requires pos + l <= dat.Length && len + 1 + l < path.Length
    requires dat != path
    modifies path
    ensures len' == len + |Sep(len)| + l
    ensures path[..len'] == old(path[..len]) + Sep(len) + Lower(dat[pos .. pos + l])
    ensures path[len'] == Nul
  {
    len' := len;
    if len != 0 {
      path[len'] := Dot;
      len' := len' + 1;
    }
    assert path[..len'] == old(path[..len]) + Sep(len);
    CopyLabel(dat, pos, path, len', l);
    assert path[..len' + l] == path[..len'] + path[len' .. len' + l];
    len' := len' + l;
    path[len'] := Nul;
  }

  /**
   * ParseMDNSPath: decodes the name at `dat[start..]` into `path`, returning
   * the decode outcome and the decoded length. `path` has MAX_MDNS_PATH + 1
   * bytes here so that the terminating NUL of a maximal name has a place.
   */
  method ParseMDNSPath(dat: array<byte>, start: nat, path: array<byte>, maxPath: nat)
    returns (r: PathResult, len: nat)
    requires path.Length > maxPath
    requires dat != path
    modifies path
    ensures r == Decode(dat[..], start, maxPath)
    ensures len <= maxPath
    ensures r.Ok? ==> len == |r.name| && path[..len] == r.name && path[len] == Nul
  {
    var pos := start;
    len := 0;
    ghost var acc: seq<byte> := [];
    ghost var d := dat[..];
    while true
      invariant dat[..] == d
      invariant len == |acc| <= maxPath
      invariant path[..len] == acc
      invariant Walk(d, start, [], maxPath) == Walk(d, pos, acc, maxPath)
      decreases dat.Length - pos
    {
      if pos >= dat.Length {
        // The source reads on regardless; past its buffer that is undefined.
        return PastBuffer, len;
      }
      var l := dat[pos] as nat;
      ghost var lengthAt := pos;
      pos := pos + 1;
      if l == 0 {
        path[len] := Nul;
        return Ok(path[..len], pos), len;
      }
      if len + l >= maxPath {
        return TooLong, len;
      }
      if pos + l > dat.Length {
        // The source writes the '.' and copies on regardless; past its buffer that is undefined.
        return PastBuffer, len;
      }
      WalkStep(d, lengthAt, acc, maxPath);
      assert d[pos .. pos + l] == dat[pos .. pos + l];
      len := AppendLabel(dat, pos, path, len, l);
      acc := acc + Sep(|acc|) + Lower(d[pos .. pos + l]);
      pos := pos + l;
    }
  }
}
