/** The byte-level protocol of the serial line: what `slstart` puts on the wire for one packet and
    what `slinput` does with one character (net/if_sl.c; the PROTOCOL section of RFC 1055). */
module SlipCodec {
  import opened Bytes

  const FRAME_END: byte := 0xc0
  const FRAME_ESCAPE: byte := 0xdb
  const TRANS_FRAME_END: byte := 0xdc
  const TRANS_FRAME_ESCAPE: byte := 0xdd

  const BUFOFFSET := 128 + 8
  const SLMAX := MCLBYTES - BUFOFFSET

  // ---------- the sender's escaping ----------

  predicate Special(b: byte) {
    b == FRAME_END || b == FRAME_ESCAPE
  }

  function EscapeByte(b: byte): seq<byte> {
    if b == FRAME_END then [FRAME_ESCAPE, TRANS_FRAME_END]
    else if b == FRAME_ESCAPE then [FRAME_ESCAPE, TRANS_FRAME_ESCAPE]
    else [b]
  }

  function Escape(p: seq<byte>): seq<byte> {
    if p == [] then [] else EscapeByte(p[0]) + Escape(p[1..])
  }

  lemma {:induction false} EscapeAppend(a: seq<byte>, b: seq<byte>)
    ensures Escape(a + b) == Escape(a) + Escape(b)
  {
    if a == [] {
      assert a + b == b;
    } else {
      assert (a + b)[1..] == a[1..] + b;
      EscapeAppend(a[1..], b);
    }
  }

  /** However a packet is cut into pieces, escaping piece by piece is escaping the whole. */
  lemma {:induction false} EscapePieces(ss: seq<seq<byte>>)
    ensures Escape(Concat(ss)) == Concat(seq(|ss|, i requires 0 <= i < |ss| => Escape(ss[i])))
  {
    var es := seq(|ss|, i requires 0 <= i < |ss| => Escape(ss[i]));
    if ss == [] {
    } else {
      EscapePieces(ss[1..]);
      EscapeAppend(ss[0], Concat(ss[1..]));
      assert es[1..] == seq(|ss[1..]|, i requires 0 <= i < |ss[1..]| => Escape(ss[1..][i]));
    }
  }

  function Specials(p: seq<byte>): nat {
    if p == [] then 0 else (if Special(p[0]) then 1 else 0) + Specials(p[1..])
  }

  /** The body of a frame never holds the frame delimiter, and costs one extra byte per special byte. */
  lemma {:induction false} EscapeShape(p: seq<byte>)
    ensures FRAME_END !in Escape(p)
    ensures |Escape(p)| == |p| + Specials(p) <= 2 * |p|
  {
    if p == [] {
    } else {
      EscapeShape(p[1..]);
    }
  }

  /** The octets that stand for each byte of a packet, as numbers, and where they are. */
  lemma EscapeAt(p: seq<byte>, k: nat)
    requires k < |p|
    ensures var w, a := Escape(p), |Escape(p[..k])|;
            && (p[k] == 0xc0 ==> a + 2 == |Escape(p[..k + 1])| <= |w| && w[a] == 0xdb && w[a + 1] == 0xdc)
            && (p[k] == 0xdb ==> a + 2 == |Escape(p[..k + 1])| <= |w| && w[a] == 0xdb && w[a + 1] == 0xdd)
            && (p[k] != 0xc0 && p[k] != 0xdb ==> a + 1 == |Escape(p[..k + 1])| <= |w| && w[a] == p[k])
  {
    var x, y := p[..k], p[k + 1..];
    assert p == x + ([p[k]] + y) && p[..k + 1] == x + [p[k]] && [p[k]][1..] == [] && ([p[k]] + y)[1..] == y;
    EscapeAppend(x, [p[k]] + y);
    EscapeAppend(x, [p[k]]);
  }

  // ---------- the receiver's state machine ----------

  /** sc_buf..sc_mp, sc_escape and the SC_ERROR flag. */
  datatype Rx = Rx(buf: seq<byte>, escape: bool, error: bool) {
    predicate Valid() {
      |buf| <= SLMAX
    }
  }

  const FRESH := Rx([], false, false)

  /** One call of slinput: a character spoilt by the line, or a clean one. */
  datatype Char = Spoilt | Clean(c: byte)

  /** The first test of slinput on its 32-bit argument. */
  function Classify(c: int, carrier: bool): Char
    requires -0x8000_0000 <= c < 0x8000_0000
  {
    if c < 0 || c >= 0x100_0000 || !carrier then Spoilt else Clean(c % 256)
  }

  function Unmap(c: byte): byte {
    if c == TRANS_FRAME_ESCAPE then FRAME_ESCAPE
    else if c == TRANS_FRAME_END then FRAME_END
    else c
  }

  function Store(s: Rx, c: byte): Rx {
    if |s.buf| < SLMAX then Rx(s.buf + [c], false, s.error) else Rx([], false, true)
  }

  /** Whether a FRAME_END in this state hands a packet up. */
  predicate Complete(s: Rx) {
    !s.error && |s.buf| >= 3 && s.buf[0] / 16 == 4
  }

  /** The state after one call of slinput.  As written, control falls from a delivered packet into the
      store of a byte (the packet's first byte masked with 0xf0, which is 0x40) and the buffer is not
      reset; repaired, it goes on to a new packet. */
  function Step(form: Form, s: Rx, e: Char): Rx {
    match e
    case Spoilt => s.(error := true)
    case Clean(c) =>
      if c == FRAME_ESCAPE then s.(escape := true)
      else if c == FRAME_END then
        if Complete(s) && form.AsWritten? then Store(s, 0x40) else FRESH
      else Store(s, if s.escape then Unmap(c) else c)
  }

  /** The packet handed up by one call of slinput, if any. */
  function Handed(s: Rx, e: Char): seq<seq<byte>> {
    if e == Clean(FRAME_END) && Complete(s) then [s.buf] else []
  }

  /** A packet that is long enough but is not IP version 4. */
  predicate Malformed(s: Rx) {
    !s.error && |s.buf| >= 3 && !Complete(s)
  }

  /** What one call adds to if_ierrors, apart from packets the IP input queue has no room for: one for a
      malformed packet and one for a byte that the buffer has no room for. */
  function Errors(form: Form, s: Rx, e: Char): nat {
    match e
    case Spoilt => 0
    case Clean(c) =>
      if c == FRAME_ESCAPE then 0
      else if c == FRAME_END && !(Complete(s) && form.AsWritten?) then if Malformed(s) then 1 else 0
      else if |s.buf| < SLMAX then 0 else 1
  }

  /** What an octet other than FRAME_END does, as a number: 0xdb escapes the next one, after which 0xdc stands for
      0xc0 and 0xdd for 0xdb; each other octet is stored; and one too many spoils the frame, as an error. */
  lemma OctetStored(form: Form, s: Rx, c: byte)
    requires s.Valid() && c != 0xc0
    ensures Handed(s, Clean(c)) == []
    ensures c == 0xdb ==> Step(form, s, Clean(c)) == s.(escape := true) && Errors(form, s, Clean(c)) == 0
    ensures c != 0xdb && |s.buf| < 1912 ==>
              var b: byte := if !s.escape then c else if c == 0xdc then 0xc0 else if c == 0xdd then 0xdb else c;
              Step(form, s, Clean(c)) == Rx(s.buf + [b], false, s.error) && Errors(form, s, Clean(c)) == 0
    ensures c != 0xdb && |s.buf| == 1912 ==>
              Step(form, s, Clean(c)) == Rx([], false, true) && Errors(form, s, Clean(c)) == 1
  {
  }

  /** What FRAME_END, 0xc0, does: 3 bytes or more of an IP version 4 packet are handed up, and others count as an
      error; then the receiver is fresh.  As written, 0x40 is stored instead behind a packet handed up. */
  lemma FrameEnded(form: Form, s: Rx)
    requires s.Valid()
    ensures !s.error && |s.buf| >= 3 && 0x40 <= s.buf[0] <= 0x4f ==>
              && Handed(s, Clean(0xc0)) == [s.buf]
              && Errors(form, s, Clean(0xc0)) == (if form.AsWritten? && |s.buf| == 1912 then 1 else 0)
              && Step(form, s, Clean(0xc0)) == if form.Repaired? then Rx([], false, false)
                                               else if |s.buf| < 1912 then Rx(s.buf + [0x40], false, false)
                                               else Rx([], false, true)
    ensures s.error || |s.buf| < 3 || !(0x40 <= s.buf[0] <= 0x4f) ==>
              && Handed(s, Clean(0xc0)) == [] && Step(form, s, Clean(0xc0)) == Rx([], false, false)
              && Errors(form, s, Clean(0xc0)) == if !s.error && |s.buf| >= 3 then 1 else 0
  {
  }

  function Run(form: Form, s: Rx, es: seq<Char>): Rx
    decreases |es|
  {
    if es == [] then s else Run(form, Step(form, s, es[0]), es[1..])
  }

  function Delivered(form: Form, s: Rx, es: seq<Char>): seq<seq<byte>>
    decreases |es|
  {
    if es == [] then [] else Handed(s, es[0]) + Delivered(form, Step(form, s, es[0]), es[1..])
  }

  lemma {:induction false} RunAppend(form: Form, s: Rx, a: seq<Char>, b: seq<Char>)
    ensures Run(form, s, a + b) == Run(form, Run(form, s, a), b)
    ensures Delivered(form, s, a + b) == Delivered(form, s, a) + Delivered(form, Run(form, s, a), b)
    decreases |a|
  {
    if a == [] {
      assert a + b == b;
    } else {
      assert (a + b)[1..] == a[1..] + b;
      RunAppend(form, Step(form, s, a[0]), a[1..], b);
    }
  }

  /** A clean line carrying these bytes. */
  function Chars(w: seq<byte>): (es: seq<Char>)
    ensures |es| == |w|
  {
    seq(|w|, i requires 0 <= i < |w| => Clean(w[i]))
  }

  lemma CharsAppend(a: seq<byte>, b: seq<byte>)
    ensures Chars(a + b) == Chars(a) + Chars(b)
  {
  }

  // ---------- invariant ----------

  /** Every run keeps the buffer within SLMAX, and whatever is handed up is 3..SLMAX bytes of an IP
      version 4 packet; in particular it is always shorter than a cluster. */
  lemma {:induction false} RunKeepsBounds(form: Form, s: Rx, es: seq<Char>)
    requires s.Valid()
    ensures Run(form, s, es).Valid()
    ensures forall p :: p in Delivered(form, s, es) ==> 3 <= |p| <= SLMAX < MCLBYTES && p[0] / 16 == 4
    decreases |es|
  {
    if es == [] {
    } else {
      RunKeepsBounds(form, Step(form, s, es[0]), es[1..]);
    }
  }

  // ---------- resynchronisation ----------

  /** A FRAME_END leads to the fresh state; as written, exactly when it does not hand a packet up. */
  lemma Resynchronises(form: Form, s: Rx)
    ensures Step(form, s, Clean(FRAME_END)) == FRESH <==> form.Repaired? || !Complete(s)
  {
  }

  /** Whatever the receiver has been through, after the next FRAME_END the rest of the stream is
      received as by a fresh receiver. */
  lemma NoiseIsForgotten(s: Rx, noise: seq<Char>, rest: seq<Char>)
    ensures Delivered(Repaired, s, noise + [Clean(FRAME_END)] + rest)
         == Delivered(Repaired, s, noise + [Clean(FRAME_END)]) + Delivered(Repaired, FRESH, rest)
  {
    var mark := [Clean(FRAME_END)];
    RunAppend(Repaired, s, noise, mark);
    RunAppend(Repaired, s, noise + mark, rest);
    var t := Run(Repaired, s, noise);
    assert Run(Repaired, t, mark) == FRESH by {
      assert mark[1..] == [];
      assert Run(Repaired, Step(Repaired, t, mark[0]), []) == FRESH;
    }
  }

  // ---------- an independent reading of the stream ----------

  /** The bytes a run of characters stands for, given whether the previous one was an escape. */
  function Unescape(w: seq<byte>, escaped: bool): seq<byte> {
    if w == [] then []
    else if w[0] == FRAME_ESCAPE then Unescape(w[1..], true)
    else [if escaped then Unmap(w[0]) else w[0]] + Unescape(w[1..], false)
  }

  lemma {:induction false} UnescapeEscape(p: seq<byte>)
    ensures Unescape(Escape(p), false) == p
  {
    if p == [] {
    } else {
      UnescapeEscape(p[1..]);
      var rest := Escape(p[1..]);
      var w := Escape(p);
      if Special(p[0]) {
        assert w[1..] == [EscapeByte(p[0])[1]] + rest;
        assert w[1..][1..] == rest;
      } else {
        assert w[1..] == rest;
      }
    }
  }

  /** What a part of an escaped packet, up to position j, stands for: its first bytes, and not all of them
      unless the part is the whole. */
  lemma {:induction false} UnescapePart(p: seq<byte>, j: nat)
    requires j <= |Escape(p)|
    ensures var q := Unescape(Escape(p)[..j], false);
            && |q| <= |p| && q == p[..|q|] && j <= 2 * |q| + 1
            && (|q| == |p| <==> j == |Escape(p)|)
  {
    if p == [] {
    } else {
      var w, e, rest := Escape(p), EscapeByte(p[0]), Escape(p[1..]);
      if j <= |e| - 1 {
        assert j == 0 || w[..j] == [FRAME_ESCAPE];
        EscapeShape(p[1..]);
        assert j == 1 ==> w[..j][1..] == [];
      } else {
        UnescapePart(p[1..], j - |e|);
        UnescapeFirst(p[0], rest[..j - |e|]);
        assert w[..j] == e + rest[..j - |e|];
      }
    }
  }

  lemma UnescapeFirst(b: byte, rest: seq<byte>)
    ensures Unescape(EscapeByte(b) + rest, false) == [b] + Unescape(rest, false)
  {
    var w := EscapeByte(b) + rest;
    if Special(b) {
      assert w[1..] == [EscapeByte(b)[1]] + rest && w[1..][1..] == rest;
    } else {
      assert w[1..] == rest;
    }
  }

  predicate Damaged(es: seq<Char>) {
    exists i :: 0 <= i < |es| && es[i] == Spoilt
  }

  /** The clean bytes of a run of characters. */
  function CleanBytes(es: seq<Char>): seq<byte> {
    if es == [] then []
    else (if es[0].Clean? then [es[0].c] else []) + CleanBytes(es[1..])
  }

  /** What one frame (the characters between two FRAME_ENDs) should yield: its unescaped bytes, when
      the line spoilt none of them and they make an IP packet of 3..SLMAX bytes, and nothing otherwise. */
  function FrameYield(es: seq<Char>): seq<seq<byte>> {
    var p := Unescape(CleanBytes(es), false);
    if !Damaged(es) && 3 <= |p| <= SLMAX && p[0] / 16 == 4 then [p] else []
  }

  /** The first FRAME_END at or after position i. */
  function NextEnd(es: seq<Char>, i: nat): (k: nat)
    requires i <= |es|
    ensures i <= k <= |es|
    ensures forall j :: i <= j < k ==> es[j] != Clean(FRAME_END)
    ensures k < |es| ==> es[k] == Clean(FRAME_END)
    decreases |es| - i
  {
    if i == |es| || es[i] == Clean(FRAME_END) then i else NextEnd(es, i + 1)
  }

  /** The reference receiver: cut the stream at the FRAME_ENDs and judge each frame by itself. */
  function Reference(es: seq<Char>): seq<seq<byte>>
    decreases |es|
  {
    var k := NextEnd(es, 0);
    if k == |es| then [] else FrameYield(es[..k]) + Reference(es[k + 1..])
  }

  lemma DamageOfTail(es: seq<Char>)
    requires es != []
    ensures Damaged(es) <==> es[0] == Spoilt || Damaged(es[1..])
  {
    if Damaged(es[1..]) {
      var i :| 0 <= i < |es[1..]| && es[1..][i] == Spoilt;
      assert es[i + 1] == Spoilt;
    }
  }

  /** Inside a frame, the machine holds exactly the unescaped bytes so far, unless it has been hit by a
      line error or has overflowed, and then the error flag is up. */
  lemma {:induction false} InsideFrame(form: Form, s: Rx, es: seq<Char>)
    requires s.Valid()
    requires forall j :: 0 <= j < |es| ==> es[j] != Clean(FRAME_END)
    ensures Delivered(form, s, es) == []
    ensures InFrame(s, es, Run(form, s, es))
    decreases |es|
  {
    if es == [] {
      assert s.buf + Unescape([], s.escape) == s.buf;
    } else {
      var t := Step(form, s, es[0]);
      InsideFrame(form, t, es[1..]);
      DamageOfTail(es);
      OneMore(form, s, es, Run(form, s, es));
    }
  }

  ghost predicate InFrame(s: Rx, es: seq<Char>, t: Rx) {
    var u := s.buf + Unescape(CleanBytes(es), s.escape);
    if s.error || Damaged(es) || |u| > SLMAX then t.error else !t.error && t.buf == u
  }

  lemma OneMore(form: Form, s: Rx, es: seq<Char>, t: Rx)
    requires s.Valid() && es != [] && es[0] != Clean(FRAME_END)
    requires InFrame(Step(form, s, es[0]), es[1..], t)
    ensures InFrame(s, es, t)
  {
    var w, v := CleanBytes(es), CleanBytes(es[1..]);
    DamageOfTail(es);
    if es[0].Clean? {
      assert w == [es[0].c] + v && w[1..] == v;
      if es[0].c != FRAME_ESCAPE {
        var x := if s.escape then Unmap(es[0].c) else es[0].c;
        assert s.buf + Unescape(w, s.escape) == (s.buf + [x]) + Unescape(v, false);
      }
    } else {
      assert w == v;
    }
  }

  /** The receiver is the reference receiver, on every stream of characters. */
  lemma {:induction false} ReceiverIsReference(es: seq<Char>)
    ensures Delivered(Repaired, FRESH, es) == Reference(es)
    decreases |es|
  {
    var k := NextEnd(es, 0);
    var frame := es[..k];
    InsideFrame(Repaired, FRESH, frame);
    if k == |es| {
      assert es == frame;
    } else {
      var rest := es[k + 1..];
      assert es == frame + ([es[k]] + rest);
      RunAppend(Repaired, FRESH, frame, [es[k]] + rest);
      var t := Run(Repaired, FRESH, frame);
      var u := Unescape(CleanBytes(frame), false);
      assert FRESH.buf + u == u;
      assert Handed(t, es[k]) == FrameYield(frame);
      assert ([es[k]] + rest)[1..] == rest;
      ReceiverIsReference(rest);
    }
  }

  /** A frame that was hit by a line error or that overflows the buffer is not handed up. */
  lemma DamagedFrameIsLost(form: Form, s: Rx, frame: seq<Char>)
    requires s.Valid()
    requires forall j :: 0 <= j < |frame| ==> frame[j] != Clean(FRAME_END)
    requires s.error || Damaged(frame) || |s.buf + Unescape(CleanBytes(frame), s.escape)| > SLMAX
    ensures Delivered(form, s, frame + [Clean(FRAME_END)]) == []
    ensures Run(form, s, frame + [Clean(FRAME_END)]) == FRESH
  {
    InsideFrame(form, s, frame);
    RunAppend(form, s, frame, [Clean(FRAME_END)]);
  }

  // ---------- the stream round trip ----------

  /** A packet the line is meant to carry. */
  predicate Carried(p: seq<byte>) {
    3 <= |p| <= SLMAX && p[0] / 16 == 4
  }

  function Ends(n: nat): seq<byte> {
    seq(n, _ => FRAME_END)
  }

  /** The wire for a list of packets, the i-th preceded by leads[i] extra FRAME_ENDs. */
  function Wire(ps: seq<seq<byte>>, leads: seq<nat>): seq<byte>
    requires |leads| == |ps|
  {
    if ps == [] then []
    else Ends(leads[0]) + Escape(ps[0]) + [FRAME_END] + Wire(ps[1..], leads[1..])
  }

  /** The body of a frame hands nothing up; it extends the buffer or raises the error flag. */
  lemma FeedBody(form: Form, s: Rx, p: seq<byte>)
    requires s.Valid() && !s.escape
    ensures Delivered(form, s, Chars(Escape(p))) == []
    ensures var t := Run(form, s, Chars(Escape(p)));
            && t.Valid()
            && (if s.error || |s.buf| + |p| > SLMAX then t.error else !t.error && t.buf == s.buf + p)
  {
    var w := Escape(p);
    EscapeShape(p);
    CleanLine(w);
    UnescapeEscape(p);
    InsideFrame(form, s, Chars(w));
    RunKeepsBounds(form, s, Chars(w));
  }

  lemma {:induction false} CleanLine(w: seq<byte>)
    ensures CleanBytes(Chars(w)) == w
    ensures !Damaged(Chars(w))
    ensures FRAME_END !in w ==> forall j :: 0 <= j < |w| ==> Chars(w)[j] != Clean(FRAME_END)
  {
    if w == [] {
    } else {
      assert Chars(w)[1..] == Chars(w[1..]);
      CleanLine(w[1..]);
    }
  }

  lemma FeedTwo(form: Form, s: Rx, a: seq<byte>, b: seq<byte>)
    ensures var t := Run(form, s, Chars(a));
            && Run(form, s, Chars(a + b)) == Run(form, t, Chars(b))
            && Delivered(form, s, Chars(a + b)) == Delivered(form, s, Chars(a)) + Delivered(form, t, Chars(b))
  {
    CharsAppend(a, b);
    RunAppend(form, s, Chars(a), Chars(b));
  }

  /** One frame body and its FRAME_END. */
  lemma FeedEnd(form: Form, s: Rx, body: seq<byte>)
    requires Delivered(form, s, Chars(body)) == []
    ensures var t := Run(form, s, Chars(body));
            && Run(form, s, Chars(body + [FRAME_END])) == Step(form, t, Clean(FRAME_END))
            && Delivered(form, s, Chars(body + [FRAME_END])) == Handed(t, Clean(FRAME_END))
  {
    FeedTwo(form, s, body, [FRAME_END]);
    assert Chars([FRAME_END]) == [Clean(FRAME_END)];
    FeedOneEnd(form, Run(form, s, Chars(body)));
  }

  /** One frame body, its FRAME_END, and the rest of the stream. */
  lemma FeedFrame(form: Form, s: Rx, body: seq<byte>, rest: seq<byte>)
    requires Delivered(form, s, Chars(body)) == []
    ensures var t := Run(form, s, Chars(body));
            var u := Step(form, t, Clean(FRAME_END));
            && Run(form, s, Chars(body + [FRAME_END] + rest)) == Run(form, u, Chars(rest))
            && Delivered(form, s, Chars(body + [FRAME_END] + rest))
               == Handed(t, Clean(FRAME_END)) + Delivered(form, u, Chars(rest))
  {
    FeedTwo(form, s, body + [FRAME_END], rest);
    FeedEnd(form, s, body);
  }

  lemma {:induction false} FeedEnds(form: Form, n: nat)
    ensures Run(form, FRESH, Chars(Ends(n))) == FRESH
    ensures Delivered(form, FRESH, Chars(Ends(n))) == []
  {
    if n == 0 {
    } else {
      assert Chars(Ends(n))[1..] == Chars(Ends(n - 1));
      FeedEnds(form, n - 1);
    }
  }

  lemma FeedOneEnd(form: Form, s: Rx)
    ensures Run(form, s, [Clean(FRAME_END)]) == Step(form, s, Clean(FRAME_END))
    ensures Delivered(form, s, [Clean(FRAME_END)]) == Handed(s, Clean(FRAME_END))
  {
    assert [Clean(FRAME_END)][1..] == [];
  }

  /** What the sender puts on the wire is received as exactly the packets sent, in order, whatever empty
      frames the extra FRAME_ENDs make. */
  lemma {:induction false} StreamRoundTrip(ps: seq<seq<byte>>, leads: seq<nat>)
    requires |leads| == |ps|
    requires forall i :: 0 <= i < |ps| ==> Carried(ps[i])
    ensures Delivered(Repaired, FRESH, Chars(Wire(ps, leads))) == ps
    ensures Run(Repaired, FRESH, Chars(Wire(ps, leads))) == FRESH
  {
    if ps == [] {
    } else {
      var rest := Wire(ps[1..], leads[1..]);
      FeedEnds(Repaired, leads[0]);
      FeedTwo(Repaired, FRESH, Ends(leads[0]), Escape(ps[0]) + [FRAME_END] + rest);
      FirstFrame(Repaired, ps[0], rest);
      StreamRoundTrip(ps[1..], leads[1..]);
      WireFront(ps, leads);
      assert ps == [ps[0]] + ps[1..];
    }
  }

  lemma WireFront(ps: seq<seq<byte>>, leads: seq<nat>)
    requires |leads| == |ps| > 0
    ensures Wire(ps, leads) == Ends(leads[0]) + (Escape(ps[0]) + [FRAME_END] + Wire(ps[1..], leads[1..]))
  {
  }

  /** From the fresh state, a frame that is carried is handed up at once. */
  lemma FirstFrame(form: Form, p: seq<byte>, rest: seq<byte>)
    requires Carried(p)
    ensures var u := if form.Repaired? then FRESH else Store(Rx(p, false, false), 0x40);
            var w := Escape(p) + [FRAME_END] + rest;
            && Run(form, FRESH, Chars(w)) == Run(form, u, Chars(rest))
            && Delivered(form, FRESH, Chars(w)) == [p] + Delivered(form, u, Chars(rest))
  {
    FeedBody(form, FRESH, p);
    assert FRESH.buf + p == p;
    FeedFrame(form, FRESH, Escape(p), rest);
  }

  // ---------- a receiver with stale flags ----------

  /** The first byte of a packet that is carried is stored as it is, whether an escape came before or not. */
  lemma StaleEscapeIsHarmless(escape: bool, p: seq<byte>, rest: seq<byte>)
    requires Carried(p)
    ensures Delivered(Repaired, Rx([], escape, false), Chars(Escape(p) + rest))
         == Delivered(Repaired, FRESH, Chars(Escape(p) + rest))
  {
    var w := Escape(p) + rest;
    assert w[0] == p[0] && !Special(p[0]);
    assert Chars(w)[0] == Clean(p[0]) && Chars(w)[1..] == Chars(w[1..]);
    assert Step(Repaired, Rx([], escape, false), Clean(p[0])) == Step(Repaired, FRESH, Clean(p[0]));
  }

  lemma StaleErrorLosesOne(escape: bool, p: seq<byte>, rest: seq<byte>)
    ensures Delivered(Repaired, Rx([], escape, true), Chars(Escape(p) + [FRAME_END] + rest))
         == Delivered(Repaired, FRESH, Chars(rest))
  {
    var s, w := Rx([], escape, true), Escape(p);
    EscapeShape(p);
    CleanLine(w);
    DamagedFrameIsLost(Repaired, s, Chars(w));
    FeedTwo(Repaired, s, w + [FRAME_END], rest);
    assert Chars(w + [FRAME_END]) == Chars(w) + [Clean(FRAME_END)];
  }

  lemma EndFirst(s: Rx, w: seq<byte>)
    requires s.buf == [] && w != [] && w[0] == FRAME_END
    ensures Delivered(Repaired, s, Chars(w)) == Delivered(Repaired, FRESH, Chars(w))
  {
    assert Chars(w)[0] == Clean(FRAME_END);
  }

  /** A receiver that starts with an empty buffer, but with the flags that its last user left, receives
      every packet of a wire exactly when a FRAME_END comes first or the error flag is not set. */
  lemma StaleFlags(escape: bool, error: bool, ps: seq<seq<byte>>, leads: seq<nat>)
    requires |leads| == |ps|
    requires forall i :: 0 <= i < |ps| ==> Carried(ps[i])
    ensures Delivered(Repaired, Rx([], escape, error), Chars(Wire(ps, leads))) == ps
       <==> ps == [] || leads[0] > 0 || !error
  {
    var s, w := Rx([], escape, error), Wire(ps, leads);
    StreamRoundTrip(ps, leads);
    if ps == [] {
    } else if leads[0] > 0 {
      EndFirst(s, w);
    } else {
      var rest := Wire(ps[1..], leads[1..]);
      NoEndFirst(ps, leads);
      StreamRoundTrip(ps[1..], leads[1..]);
      StaleErrorLosesOne(escape, ps[0], rest);
      StaleEscapeIsHarmless(escape, ps[0], [FRAME_END] + rest);
    }
  }

  lemma NoEndFirst(ps: seq<seq<byte>>, leads: seq<nat>)
    requires |leads| == |ps| > 0 && leads[0] == 0
    ensures var rest := Wire(ps[1..], leads[1..]);
            && Wire(ps, leads) == Escape(ps[0]) + [FRAME_END] + rest
            && Wire(ps, leads) == Escape(ps[0]) + ([FRAME_END] + rest)
  {
    Regroup(Ends(0), Escape(ps[0]), [FRAME_END], Wire(ps[1..], leads[1..]));
  }

  lemma Regroup(x: seq<byte>, a: seq<byte>, b: seq<byte>, c: seq<byte>)
    requires x == []
    ensures x + a + b + c == a + b + c == a + (b + c)
  {
  }

  // ---------- delivery in place ----------

  /** The extra FRAME_ENDs hand up nothing, and each frame's own FRAME_END hands up its packet. */
  ghost predicate InPlace(form: Form, s: Rx, ps: seq<seq<byte>>, leads: seq<nat>)
    requires |leads| == |ps|
    decreases |ps|
  {
    ps != [] ==>
      var t := Run(form, s, Chars(Ends(leads[0])));
      && Delivered(form, s, Chars(Ends(leads[0]))) == []
      && Delivered(form, t, Chars(Escape(ps[0]) + [FRAME_END])) == [ps[0]]
      && InPlace(form, Run(form, t, Chars(Escape(ps[0]) + [FRAME_END])), ps[1..], leads[1..])
  }

  /** Then all packets are delivered, and nothing else. */
  lemma {:induction false} InPlaceDelivers(form: Form, s: Rx, ps: seq<seq<byte>>, leads: seq<nat>)
    requires |leads| == |ps| && InPlace(form, s, ps, leads)
    ensures Delivered(form, s, Chars(Wire(ps, leads))) == ps
    decreases |ps|
  {
    if ps == [] {
    } else {
      var a, b, rest := Ends(leads[0]), Escape(ps[0]) + [FRAME_END], Wire(ps[1..], leads[1..]);
      var t := Run(form, s, Chars(a));
      InPlaceDelivers(form, Run(form, t, Chars(b)), ps[1..], leads[1..]);
      WireFront(ps, leads);
      FeedTwo(form, s, a, b + rest);
      FeedTwo(form, t, b, rest);
      assert ps == [ps[0]] + ps[1..];
    }
  }

  /** Each packet but the last fills the buffer, and a FRAME_END comes before each but the first. */
  predicate FilledAndLed(ps: seq<seq<byte>>, leads: seq<nat>)
    requires |leads| == |ps|
  {
    forall i :: 0 <= i < |ps| - 1 ==> |ps[i]| == SLMAX && leads[i + 1] > 0
  }

  lemma FilledAndLedCons(ps: seq<seq<byte>>, leads: seq<nat>)
    requires |leads| == |ps| >= 2
    ensures FilledAndLed(ps, leads) <==> |ps[0]| == SLMAX && leads[1] > 0 && FilledAndLed(ps[1..], leads[1..])
  {
    var qs, ls := ps[1..], leads[1..];
    if FilledAndLed(ps, leads) {
      assert |ps[0]| == SLMAX && leads[0 + 1] > 0;
      forall i | 0 <= i < |qs| - 1
        ensures |qs[i]| == SLMAX && ls[i + 1] > 0
      {
        assert |ps[i + 1]| == SLMAX && leads[i + 2] > 0;
      }
      assert FilledAndLed(qs, ls);
    }
    if |ps[0]| == SLMAX && leads[1] > 0 && FilledAndLed(qs, ls) {
      forall i | 0 <= i < |ps| - 1
        ensures |ps[i]| == SLMAX && leads[i + 1] > 0
      {
        assert i > 0 ==> |qs[i - 1]| == SLMAX && ls[(i - 1) + 1] > 0;
      }
      assert FilledAndLed(ps, leads);
    }
  }

  /** Packets are delivered in place, repaired, always; as written, exactly when each of them but the last
      fills the buffer and a FRAME_END comes before each but the first.  Then the byte that is stored
      behind a packet handed up overflows the buffer, and the FRAME_END clears the error. */
  lemma {:induction false} InPlaceIff(form: Form, ps: seq<seq<byte>>, leads: seq<nat>)
    requires |leads| == |ps|
    requires forall i :: 0 <= i < |ps| ==> Carried(ps[i])
    ensures InPlace(form, FRESH, ps, leads) <==> form.Repaired? || FilledAndLed(ps, leads)
    decreases |ps|
  {
    if ps == [] {
    } else {
      var qs, ls := ps[1..], leads[1..];
      var u := if form.Repaired? then FRESH else Store(Rx(ps[0], false, false), 0x40);
      FeedEnds(form, leads[0]);
      FirstFrame(form, ps[0], []);
      assert Escape(ps[0]) + [FRAME_END] + [] == Escape(ps[0]) + [FRAME_END] && Chars([]) == [];
      InPlaceIff(form, qs, ls);
      if qs == [] {
      } else if form.Repaired? {
      } else {
        AfterStore(ps[0], qs, ls);
        FilledAndLedCons(ps, leads);
      }
    }
  }

  /** As written, FRAME_ENDs behind a packet that was handed up: they hand up the stale buffer, unless it
      has overflowed. */
  lemma LedBehind(p: seq<byte>, n: nat)
    requires Carried(p) && n > 0
    ensures var u := Store(Rx(p, false, false), 0x40);
            && (Delivered(AsWritten, u, Chars(Ends(n))) == [] <==> |p| == SLMAX)
            && (|p| == SLMAX ==> Run(AsWritten, u, Chars(Ends(n))) == FRESH)
  {
    FeedEnds(AsWritten, n - 1);
    assert Chars(Ends(n))[0] == Clean(FRAME_END) && Chars(Ends(n))[1..] == Chars(Ends(n - 1));
  }

  /** As written, a frame right behind a packet that was handed up does not hand up its own. */
  lemma UnledBehind(p: seq<byte>, q: seq<byte>)
    requires Carried(p) && Carried(q)
    ensures Delivered(AsWritten, Store(Rx(p, false, false), 0x40), Chars(Escape(q) + [FRAME_END])) != [q]
  {
    var u := Store(Rx(p, false, false), 0x40);
    FeedBody(AsWritten, u, q);
    FeedFrame(AsWritten, u, Escape(q), []);
    assert Escape(q) + [FRAME_END] + [] == Escape(q) + [FRAME_END] && Chars([]) == [];
    var t := Run(AsWritten, u, Chars(Escape(q)));
    assert t.error || |t.buf| > |q|;
    assert Handed(t, Clean(FRAME_END)) + [] == Handed(t, Clean(FRAME_END));
  }

  /** As written, behind a packet that was handed up. */
  lemma AfterStore(p: seq<byte>, qs: seq<seq<byte>>, ls: seq<nat>)
    requires Carried(p) && |ls| == |qs| && qs != [] && Carried(qs[0])
    ensures InPlace(AsWritten, Store(Rx(p, false, false), 0x40), qs, ls)
       <==> |p| == SLMAX && ls[0] > 0 && InPlace(AsWritten, FRESH, qs, ls)
  {
    if ls[0] > 0 {
      LedBehind(p, ls[0]);
      FeedEnds(AsWritten, ls[0]);
    } else {
      assert Chars(Ends(0)) == [];
      UnledBehind(p, qs[0]);
    }
  }

  // ---------- the stream, as written ----------

  /** The wire when the line never goes idle between packets, so that no extra FRAME_END is sent. */
  function Plain(ps: seq<seq<byte>>): seq<byte> {
    if ps == [] then [] else Escape(ps[0]) + [FRAME_END] + Plain(ps[1..])
  }

  lemma {:induction false} PlainIsWire(ps: seq<seq<byte>>)
    ensures Plain(ps) == Wire(ps, seq(|ps|, _ => 0))
  {
    if ps == [] {
    } else {
      assert seq(|ps|, _ => 0 as nat)[1..] == seq(|ps[1..]|, _ => 0 as nat);
      assert Ends(0) == [];
      PlainIsWire(ps[1..]);
    }
  }

  /** As written, a receiver that has handed up a packet keeps it in the buffer. */
  lemma {:induction false} StaleBufferGrows(s: Rx, ps: seq<seq<byte>>)
    requires s.Valid() && !s.escape
    requires ps != [] && forall i :: 0 <= i < |ps| ==> Carried(ps[i])
    requires s.error || (|s.buf| > 3 && s.buf[0] / 16 == 4)
    ensures var got := Delivered(AsWritten, s, Chars(Plain(ps)));
            |got| <= |ps| && (|got| == |ps| ==> |got[0]| > |ps[0]|)
  {
    var b, d := Escape(ps[0]), Plain(ps[1..]);
    var first := StaleFrame(s, ps[0], d);
    var u := Step(AsWritten, Run(AsWritten, s, Chars(b)), Clean(FRAME_END));
    WireYieldsAtMost(u, ps[1..]);
    assert Delivered(AsWritten, s, Chars(Plain(ps))) == first + Delivered(AsWritten, u, Chars(d));
  }

  /** What a frame hands up on top of a stale buffer. */
  lemma StaleFrame(s: Rx, p: seq<byte>, d: seq<byte>) returns (first: seq<seq<byte>>)
    requires s.Valid() && !s.escape && (s.error || (|s.buf| > 3 && s.buf[0] / 16 == 4))
    ensures var u := Step(AsWritten, Run(AsWritten, s, Chars(Escape(p))), Clean(FRAME_END));
            && u.Valid() && !u.escape
            && Delivered(AsWritten, s, Chars(Escape(p) + [FRAME_END] + d)) == first + Delivered(AsWritten, u, Chars(d))
    ensures first == [] || (|first| == 1 && |first[0]| > |p|)
  {
    FeedBody(AsWritten, s, p);
    FeedFrame(AsWritten, s, Escape(p), d);
    first := Handed(Run(AsWritten, s, Chars(Escape(p))), Clean(FRAME_END));
  }

  /** As written, each frame of the wire hands up at most one packet. */
  lemma {:induction false} WireYieldsAtMost(s: Rx, ps: seq<seq<byte>>)
    requires s.Valid() && !s.escape
    ensures |Delivered(AsWritten, s, Chars(Plain(ps)))| <= |ps|
    decreases |ps|
  {
    if ps == [] {
    } else {
      var b, d := Escape(ps[0]), Plain(ps[1..]);
      FeedBody(AsWritten, s, ps[0]);
      FeedFrame(AsWritten, s, b, d);
      var t := Run(AsWritten, s, Chars(b));
      WireYieldsAtMost(Step(AsWritten, t, Clean(FRAME_END)), ps[1..]);
    }
  }

  /** As written, frames sent back to back come out as the packets sent exactly when there is at most
      one of them: the second one is glued to the first, or lost. */
  lemma AsWrittenStreamRoundTrip(ps: seq<seq<byte>>)
    requires forall i :: 0 <= i < |ps| ==> Carried(ps[i])
    ensures Delivered(AsWritten, FRESH, Chars(Wire(ps, seq(|ps|, _ => 0)))) == ps <==> |ps| <= 1
  {
    PlainIsWire(ps);
    if |ps| >= 2 {
      LaterFramesAreGlued(ps);
    } else if |ps| == 1 {
      LoneFrame(ps[0]);
      assert ps == [ps[0]];
    } else {
      assert Plain(ps) == [] && Chars([]) == [];
    }
  }

  lemma LoneFrame(p: seq<byte>)
    requires Carried(p)
    ensures Delivered(AsWritten, FRESH, Chars(Plain([p]))) == [p]
  {
    FirstFrame(AsWritten, p, []);
    assert Plain([p]) == Escape(p) + [FRAME_END] + [];
  }

  lemma LaterFramesAreGlued(ps: seq<seq<byte>>)
    requires |ps| >= 2 && forall i :: 0 <= i < |ps| ==> Carried(ps[i])
    ensures Delivered(AsWritten, FRESH, Chars(Plain(ps))) != ps
  {
    var p, qs := ps[0], ps[1..];
    var u := Store(Rx(p, false, false), 0x40);
    FirstFrame(AsWritten, p, Plain(qs));
    var rest := Delivered(AsWritten, u, Chars(Plain(qs)));
    StaleBufferGrows(u, qs);
    assert ([p] + rest)[1..] == rest;
  }

  /** With extra FRAME_ENDs the second direction fails: as written, one of them hands the stale buffer up
      again, and that can be just the packet that is sent next, whose own frame then overflows. */
  lemma StaleCopyCanMatch(p: seq<byte>)
    requires Carried(p) && SLMAX < 2 * |p| + 3 && |p| < SLMAX
    ensures var q := p + [0x40]; Delivered(AsWritten, FRESH, Chars(Wire([p, q], [0, 1]))) == [p, q]
  {
    var q := p + [0x40];
    var last := Escape(q) + [FRAME_END];
    var u := Rx(q, false, false);
    WireOfTwo(p, q);
    FirstFrame(AsWritten, p, [FRAME_END] + last);
    assert [] + [FRAME_END] + last == [FRAME_END] + last;
    assert Chars([]) == [];
    FeedFrame(AsWritten, u, [], last);
    StaleOverflows(q);
    assert Delivered(AsWritten, u, Chars([FRAME_END] + last)) == [q] + [];
  }

  lemma StaleOverflows(q: seq<byte>)
    requires |q| <= SLMAX < 2 * |q| + 1
    ensures Delivered(AsWritten, Store(Rx(q, false, false), 0x40), Chars(Escape(q) + [FRAME_END])) == []
  {
    var v := Store(Rx(q, false, false), 0x40);
    FeedBody(AsWritten, v, q);
    FeedFrame(AsWritten, v, Escape(q), []);
    assert Chars([]) == [] && Escape(q) + [FRAME_END] + [] == Escape(q) + [FRAME_END];
  }

  lemma WireOfTwo(p: seq<byte>, q: seq<byte>)
    ensures Wire([p, q], [0, 1]) == Escape(p) + [FRAME_END] + ([FRAME_END] + (Escape(q) + [FRAME_END]))
  {
    var ps: seq<seq<byte>> := [p, q];
    var leads: seq<nat> := [0, 1];
    assert Ends(0) == [] && Ends(1) == [FRAME_END];
    assert Wire(ps[1..], leads[1..]) == Ends(1) + Escape(q) + [FRAME_END] by {
      assert ps[1..][1..] == [] && leads[1..][1..] == [];
    }
  }
}
