/** Binding terminals to serial line units: slopen, slinit and slclose (net/if_sl.c). */
module SlipUnits {
  import opened Arenas
  import opened Bytes
  import opened MbufFree
  import opened Mbufs
  import opened SlipCodec
  import opened SlipLine

  const NSL := 32
  const SLIPDISC := 4
  const ENXIO := 6

  datatype Call = OpenCall(tp: Tty) | CloseCall(tp: Tty)

  function Errno(bound: set<Tty>, c: Call): int {
    if c.OpenCall? && c.tp !in bound && |bound| == NSL then ENXIO else 0
  }

  function BoundNext(bound: set<Tty>, c: Call): set<Tty> {
    match c
    case OpenCall(tp) => if Errno(bound, c) == 0 then bound + {tp} else bound
    case CloseCall(tp) => bound - {tp}
  }

  function BoundAfter(bound: set<Tty>, calls: seq<Call>): set<Tty>
    decreases |calls|
  {
    if calls == [] then bound else BoundAfter(BoundNext(bound, calls[0]), calls[1..])
  }

  function Errnos(bound: set<Tty>, calls: seq<Call>): seq<int>
    decreases |calls|
  {
    if calls == [] then [] else [Errno(bound, calls[0])] + Errnos(BoundNext(bound, calls[0]), calls[1..])
  }

  type Buffer = array?<byte>

  /** The buffers in use belong to one unit each. */
  ghost predicate Owners(mems: seq<Buffer>, live: set<array<byte>>) {
    && (forall i :: 0 <= i < |mems| && mems[i] != null ==> mems[i] in live)
    && (forall i, j :: 0 <= i < j < |mems| && mems[i] != null ==> mems[i] != mems[j])
    && (forall b <- live :: b in mems)
  }

  lemma OwnMore(mems: seq<Buffer>, live: set<array<byte>>, i: nat, p: array<byte>)
    requires Owners(mems, live) && i < |mems| && mems[i] == null && p !in live
    ensures Owners(mems[i := p], live + {p})
  {
    var more := mems[i := p];
    assert more[i] == p;
    forall b | b in live
      ensures b in more
    {
      var j :| 0 <= j < |mems| && mems[j] == b;
      assert more[j] == b;
    }
  }

  lemma OwnLess(mems: seq<Buffer>, live: set<array<byte>>, i: nat)
    requires Owners(mems, live) && i < |mems| && mems[i] != null
    ensures Owners(mems[i := null], live - {mems[i]})
  {
    var less := mems[i := null];
    forall b | b in live && b != mems[i]
      ensures b in less
    {
      var j :| 0 <= j < |mems| && mems[j] == b;
      assert less[j] == b;
    }
  }

  /** A unit has a buffer, with sc_ep at its end and the other pointers in it, exactly when it is bound. */
  ghost predicate Fits(u: Receiver, mem: Buffer)
    reads u`ttyp, u`mem, u`ep, u`buf, u`mp
  {
    if mem == null then u.ttyp == null && u.ep == 0 else u.ttyp != null && u.mem == mem && u.Valid()
  }

  class Slip {
    const units: seq<Receiver>
    const arena: Arena
    ghost var mems: seq<Buffer>  // the buffer of each unit

    constructor (units: seq<Receiver>, arena: Arena)
      ensures this.units == units && this.arena == arena && mems == seq(|units|, _ => null)
    {
      this.units, this.arena := units, arena;
      mems := seq(|units|, _ => null);
    }

    /** The table sl_softc is NSL different units. */
    ghost predicate Table() {
      |units| == NSL && forall i, j :: 0 <= i < j < NSL ==> units[i] != units[j]
    }

    /** Terminals and units point at each other or not at all. */
    ghost predicate Paired(ports: set<Tty>)
      reads units`ttyp, ports`sc
    {
      && (forall i {:trigger units[i].ttyp} :: 0 <= i < |units| && units[i].ttyp != null ==>
            units[i].ttyp in ports && units[i].ttyp.sc == units[i])
      && (forall p {:trigger p.sc} :: p in ports && p.sc != null ==> p.sc in units && p.sc.ttyp == p)
    }

    /** Every unit's pointers fit its buffer, and the buffers of the units are those in use. */
    ghost predicate Buffered()
      reads this`mems, units`mem, units`ep, units`mp, units`buf, units`ttyp, arena
    {
      && |mems| == |units| && Owners(mems, arena.live)
      && forall i {:trigger mems[i]} {:trigger units[i]} :: 0 <= i < |units| ==> Fits(units[i], mems[i])
    }

    /** Between calls, a terminal is bound exactly when the tty layer has put it in the discipline. */
    ghost predicate Disciplined(ports: set<Tty>)
      reads ports`sc, ports`line
    {
      forall p <- ports :: p.sc != null <==> p.line == SLIPDISC
    }

    ghost predicate Valid(ports: set<Tty>)
      reads this`mems, units, ports, arena
    {
      Table() && Paired(ports) && Buffered() && Disciplined(ports)
    }

    /** The first unit that is not bound; NSL when there is none. */
    ghost function FirstFree(i: nat): (k: nat)
      requires |units| == NSL && i <= NSL
      reads units
      ensures i <= k <= NSL && (k < NSL ==> units[k].ttyp == null)
      ensures forall j :: i <= j < k ==> units[j].ttyp != null
      decreases NSL - i
    {
      if i == NSL || units[i].ttyp == null then i else FirstFree(i + 1)
    }

    /** slopen.  The last clause tells when the links survive a call that the tty layer should not make:
        opening a bound terminal outside the discipline breaks them exactly when a unit is free. */
    method Open(tp: Tty, ghost ports: set<Tty>) returns (errno: int)
      requires Table() && Paired(ports) && Buffered() && tp in ports
      modifies this`mems, units, tp`sc, arena
      ensures errno == if old(tp.line) == SLIPDISC || old(FirstFree(0)) < 32 then 0 else 6
      ensures old(tp.line) == SLIPDISC || errno != 0 ==>
                tp.sc == old(tp.sc) && (forall u <- units :: u.ttyp == old(u.ttyp)) && arena.live == old(arena.live)
      ensures old(tp.line) != SLIPDISC && errno == 0 ==>
                tp.sc == units[old(FirstFree(0))] && tp.sc.ttyp == tp && tp.sc.baudrate == tp.ospeed
                && (forall u <- units :: u != tp.sc ==> u.ttyp == old(u.ttyp))
                && tp.sc.Valid()
                && tp.sc.Rx() == Rx([], old(units[FirstFree(0)].escape), old(units[FirstFree(0)].error))
      ensures Buffered()
      ensures Paired(ports) <==> old(tp.line) == SLIPDISC || old(tp.sc) == null || errno != 0
    {
      if tp.line == SLIPDISC {
        return 0;
      }
      var i := 0;
      while i < NSL
        invariant 0 <= i <= NSL && FirstFree(0) == FirstFree(i)
      {
        if units[i].ttyp == null {
          Attach(tp, i, ports);
          return 0;
        }
        i := i + 1;
      }
      return ENXIO;
    }

    /** slopen with the unit it has found.  What the line discipline left in sc_escape and SC_ERROR when
        the unit was last closed is still there. */
    method Attach(tp: Tty, i: nat, ghost ports: set<Tty>)
      requires Table() && Paired(ports) && Buffered() && tp in ports
      requires i < NSL && units[i].ttyp == null
      modifies this`mems, units[i], tp`sc, arena
      ensures tp.sc == units[i] && units[i].ttyp == tp && units[i].baudrate == tp.ospeed
      ensures units[i].Valid() && units[i].Rx() == Rx([], old(units[i].escape), old(units[i].error))
      ensures Buffered()
      ensures Paired(ports) <==> old(tp.sc) == null
    {
      var u := units[i];
      assert Fits(u, mems[i]);
      OwnNew(u, i);
      Bind(tp, u, i, ports);
    }

    /** slinit of a unit without a buffer. */
    method OwnNew(u: Receiver, ghost i: nat)
      requires Table() && Buffered() && i < NSL && u == units[i] && u.ttyp == null && u.ep == 0
      modifies this`mems, u`mem, u`buf, u`mp, u`ep, arena
      ensures u.Valid() && u.Rx() == Rx([], old(u.escape), old(u.error)) && u.mem != null && fresh(u.mem)
      ensures mems == old(mems)[i := u.mem] && |mems| == |units| && Owners(mems, arena.live)
      ensures forall j {:trigger mems[j]} {:trigger units[j]} :: 0 <= j < |units| && j != i ==> Fits(units[j], mems[j])
    {
      assert Fits(u, mems[i]);
      u.SlInit(arena);
      OwnMore(mems, old(arena.live), i, u.mem);
      mems := mems[i := u.mem];
    }

    method Bind(tp: Tty, u: Receiver, ghost i: nat, ghost ports: set<Tty>)
      requires Table() && Paired(ports) && tp in ports
      requires i < NSL && u == units[i] && u.ttyp == null
      modifies u`ttyp, u`baudrate, tp`sc
      ensures tp.sc == u && u.ttyp == tp && u.baudrate == tp.ospeed
      ensures Paired(ports) <==> old(tp.sc) == null
    {
      ghost var was := tp.sc;
      tp.sc := u;
      u.ttyp := tp;
      u.baudrate := tp.ospeed;
      if was != null {
        ghost var j :| 0 <= j < |units| && units[j] == was;
        assert units[j].ttyp == tp;
      }
    }

    /** slopen, followed by the tty layer's setting of the discipline when it succeeds. */
    method OpenLine(tp: Tty, ghost ports: set<Tty>) returns (errno: int)
      requires Valid(ports) && tp in ports
      modifies this`mems, units, tp, arena
      ensures Valid(ports)
      ensures errno == if old(tp.sc) != null || old(FirstFree(0)) < NSL then 0 else ENXIO
      ensures errno == 0 <==> tp.sc != null
      ensures old(tp.sc) != null || errno != 0 ==> tp.sc == old(tp.sc)
      ensures forall p <- ports :: p != tp ==> p.sc == old(p.sc)
    {
      errno := OpenUnbound(tp, ports);
      if errno == 0 {
        SetLine(tp, ports);
      }
    }

    /** slopen of a terminal that is in the discipline exactly when it is bound. */
    method OpenUnbound(tp: Tty, ghost ports: set<Tty>) returns (errno: int)
      requires Table() && Paired(ports) && Buffered() && tp in ports
      requires tp.sc != null <==> tp.line == SLIPDISC
      modifies this`mems, units, tp`sc, arena
      ensures Paired(ports) && Buffered()
      ensures errno == if old(tp.sc) != null || old(FirstFree(0)) < NSL then 0 else ENXIO
      ensures errno == 0 <==> tp.sc != null
      ensures old(tp.sc) != null || errno != 0 ==> tp.sc == old(tp.sc)
    {
      errno := Open(tp, ports);
    }

    method SetLine(tp: Tty, ghost ports: set<Tty>)
      requires tp.sc != null && tp in ports
      requires forall p <- ports :: p != tp ==> (p.sc != null <==> p.line == SLIPDISC)
      modifies tp`line
      ensures Disciplined(ports)
    {
      tp.line := SLIPDISC;
    }

    // ---------- whole runs ----------

    ghost predicate AllBusy()
      reads units`ttyp
    {
      forall i {:trigger units[i].ttyp} :: 0 <= i < |units| ==> units[i].ttyp != null
    }

    /** The bound terminals. */
    ghost function Bound(ports: set<Tty>): set<Tty>
      reads ports`sc
    {
      set p | p in ports && p.sc != null
    }

    /** The terminals of the first k units. */
    ghost function BusyPorts(k: nat): (r: set<Tty>)
      requires k <= |units|
      reads units`ttyp
      ensures forall p <- r :: exists i {:trigger units[i].ttyp} :: 0 <= i < k && units[i].ttyp == p
      ensures forall i {:trigger units[i].ttyp} :: 0 <= i < k && units[i].ttyp != null ==> units[i].ttyp in r
    {
      if k == 0 then {}
      else BusyPorts(k - 1) + if units[k - 1].ttyp == null then {} else {units[k - 1].ttyp}
    }

    /** The first k units are busy. */
    ghost predicate BusyTo(k: nat)
      requires k <= |units|
      reads units`ttyp
      ensures BusyTo(k) <==> forall i {:trigger units[i].ttyp} :: 0 <= i < k ==> units[i].ttyp != null
    {
      k > 0 ==> BusyTo(k - 1) && units[k - 1].ttyp != null
    }

    lemma {:induction false} BusyCount(ports: set<Tty>, k: nat)
      requires Table() && Paired(ports) && k <= NSL
      ensures |BusyPorts(k)| <= k
      ensures |BusyPorts(k)| == k <==> BusyTo(k)
    {
      if k == 0 {
      } else {
        BusyCount(ports, k - 1);
        if units[k - 1].ttyp != null {
          NotBefore(ports, k - 1);
          OneMore(BusyPorts(k - 1), units[k - 1].ttyp);
        }
      }
    }

    lemma OneMore(s: set<Tty>, p: Tty)
      requires p !in s
      ensures |s + {p}| == |s| + 1
    {
    }

    lemma NotBefore(ports: set<Tty>, k: nat)
      requires Table() && Paired(ports) && k < NSL && units[k].ttyp != null
      ensures units[k].ttyp !in BusyPorts(k)
    {
    }

    /** No more terminals are bound than there are units, and every unit is busy exactly when NSL
        terminals are bound. */
    lemma AllBusyIffFull(ports: set<Tty>)
      requires Table() && Paired(ports)
      ensures |Bound(ports)| <= 32
      ensures AllBusy() <==> |Bound(ports)| == 32
    {
      BusyCount(ports, NSL);
      forall p | p in Bound(ports)
        ensures p in BusyPorts(NSL)
      {
        var i :| 0 <= i < |units| && units[i] == p.sc;
        assert units[i].ttyp == p;
      }
      assert Bound(ports) == BusyPorts(NSL);
    }

    /** Any run of opens and closes: a terminal that is not bound is refused exactly when NSL others are. */
    method RunCalls(calls: seq<Call>, ghost ports: set<Tty>) returns (errnos: seq<int>)
      requires Valid(ports) && forall c <- calls :: c.tp in ports
      modifies this`mems, units, ports, arena
      ensures Valid(ports) && Bound(ports) == BoundAfter(old(Bound(ports)), calls)
      ensures errnos == Errnos(old(Bound(ports)), calls)
      decreases |calls|
    {
      errnos := [];
      if calls != [] {
        var errno := OneCall(calls[0], ports);
        var more := RunCalls(calls[1..], ports);
        errnos := [errno] + more;
      }
    }

    method OneCall(c: Call, ghost ports: set<Tty>) returns (errno: int)
      requires Valid(ports) && c.tp in ports
      modifies this`mems, units, ports, arena
      ensures Valid(ports) && Bound(ports) == BoundNext(old(Bound(ports)), c)
      ensures errno == Errno(old(Bound(ports)), c)
    {
      match c {
        case OpenCall(tp) =>
          errno := OpenCounted(tp, ports);
        case CloseCall(tp) =>
          CloseCounted(tp, ports);
          errno := 0;
      }
    }

    method OpenCounted(tp: Tty, ghost ports: set<Tty>) returns (errno: int)
      requires Valid(ports) && tp in ports
      modifies this`mems, units, tp, arena
      ensures Valid(ports) && Bound(ports) == BoundNext(old(Bound(ports)), OpenCall(tp))
      ensures errno == Errno(old(Bound(ports)), OpenCall(tp))
    {
      FreeIffNotFull(ports);
      errno := OpenBinds(tp, ports);
    }

    method OpenBinds(tp: Tty, ghost ports: set<Tty>) returns (errno: int)
      requires Valid(ports) && tp in ports
      modifies this`mems, units, tp, arena
      ensures Valid(ports)
      ensures errno == if tp in old(Bound(ports)) || old(FirstFree(0)) < NSL then 0 else ENXIO
      ensures Bound(ports) == old(Bound(ports)) + if errno == 0 then {tp} else {}
    {
      errno := OpenLine(tp, ports);
    }

    lemma FreeIffNotFull(ports: set<Tty>)
      requires Table() && Paired(ports)
      ensures |Bound(ports)| <= NSL
      ensures FirstFree(0) < NSL <==> |Bound(ports)| < NSL
    {
      AllBusyIffFull(ports);
    }

    method CloseCounted(tp: Tty, ghost ports: set<Tty>)
      requires Valid(ports) && tp in ports
      modifies this`mems, units, tp, arena
      ensures Valid(ports) && Bound(ports) == old(Bound(ports)) - {tp}
    {
      Close(tp, ports);
    }

    /** slclose.  The buffer it frees is the one slinit allocated. */
    method Close(tp: Tty, ghost ports: set<Tty>)
      requires Valid(ports) && tp in ports
      modifies this`mems, units, tp, arena
      ensures Valid(ports)
      ensures tp.sc == null && tp.line == 0
      ensures if old(tp.sc) == null then arena.live == old(arena.live)
              else old(tp.sc.mem) != null && arena.live == old(arena.live) - {old(tp.sc.mem)}
      ensures forall p <- ports :: p != tp ==> p.sc == old(p.sc)
    {
      tp.line := 0;
      if tp.sc != null {
        Release(tp, ports);
      }
    }

    /** slclose as a whole, with the call of if_down for the interface of the unit that is closed: the packets
        of its if_snd are released and counted as dropped; those of its interactive queue stay, for whoever
        opens the unit next. */
    method CloseDown(tp: Tty, ghost ports: set<Tty>, log: FreeLog, ghost ds: Descs, ghost R: set<Mbuf>)
      requires Valid(ports) && tp in ports
      requires tp.sc != null ==> tp.sc.out.Ready() && Described(tp.sc.out.snd.contents, ds, R)
      modifies this`mems, units, tp, arena, log
      modifies (if tp.sc == null then {} else {tp.sc.out})`up, if tp.sc == null then {} else {tp.sc.out.snd}
      ensures Valid(ports) && tp.sc == null && tp.line == 0
      ensures old(tp.sc) == null ==> log.freed == old(log.freed)
      ensures old(tp.sc) != null ==>
                var tr := old(tp.sc).out;
                && tr.Ready() && !tr.up && tr.snd.contents == [] && tr.fastq.contents == old(tr.fastq.contents)
                && log.freed == old(log.freed) + AllReleases(old(tr.snd.contents), ds)
                && tr.snd.drops == old(tr.snd.drops) + |old(tr.snd.contents)|
    {
      if tp.sc == null {
        Close(tp, ports);
      } else {
        var tr := tp.sc.out;
        TakeDown(ports, tr, log, ds, R);
        CloseKept(tp, ports, tr);
      }
    }

    method TakeDown(ghost ports: set<Tty>, tr: Transmitter, log: FreeLog, ghost ds: Descs, ghost R: set<Mbuf>)
      requires Valid(ports) && tr.Ready() && Described(tr.snd.contents, ds, R)
      modifies tr`up, tr.snd, log
      ensures Valid(ports) && tr.Ready() && !tr.up
      ensures tr.snd.contents == [] && tr.fastq.contents == old(tr.fastq.contents)
      ensures log.freed == old(log.freed) + AllReleases(old(tr.snd.contents), ds)
      ensures tr.snd.drops == old(tr.snd.drops) + |old(tr.snd.contents)|
    {
      tr.IfDown(log, ds, R);
    }

    method CloseKept(tp: Tty, ghost ports: set<Tty>, ghost tr: Transmitter)
      requires Valid(ports) && tp in ports && tr.Ready()
      modifies this`mems, units, tp, arena
      ensures Valid(ports) && tp.sc == null && tp.line == 0 && tr.Ready()
    {
      Close(tp, ports);
    }

    method Release(tp: Tty, ghost ports: set<Tty>)
      requires Table() && Paired(ports) && Buffered() && tp in ports && tp.sc != null
      modifies this`mems, units, tp`sc, arena
      ensures Paired(ports) && Buffered() && tp.sc == null
      ensures old(tp.sc.mem) != null && arena.live == old(arena.live) - {old(tp.sc.mem)}
    {
      ghost var i :| 0 <= i < |units| && units[i] == tp.sc;
      var u := tp.sc;
      assert u.ttyp == tp && Fits(u, mems[i]);
      Unbind(tp, u, ports);
      FreeBuffer(u, i);
    }

    method Unbind(tp: Tty, u: Receiver, ghost ports: set<Tty>)
      requires Table() && Paired(ports) && tp in ports && u == tp.sc
      modifies u`ttyp, tp`sc
      ensures Paired(ports) && u.ttyp == null && tp.sc == null
    {
      u.ttyp := null;
      tp.sc := null;
    }

    method FreeBuffer(u: Receiver, ghost i: nat)
      requires Table() && i < NSL && u == units[i] && u.ttyp == null && u.Valid()
      requires |mems| == |units| && Owners(mems, arena.live) && mems[i] == u.mem
      requires forall j {:trigger mems[j]} {:trigger units[j]} :: 0 <= j < |units| && j != i ==> Fits(units[j], mems[j])
      modifies this`mems, u`mem, u`buf, u`mp, u`ep, arena
      ensures Buffered() && arena.live == old(arena.live) - {old(u.mem)}
    {
      OwnLess(mems, arena.live, i);
      arena.Free(u.mem, u.ep - SLBUFSIZE);
      mems := mems[i := null];
      u.mem, u.buf, u.mp, u.ep := null, 0, 0, 0;
    }
  }

  /** The state at the start: no unit is bound. */
  method Boot() returns (s: Slip)
    ensures fresh(s) && s.Valid({})
  {
    var units: seq<Receiver> := [];
    while |units| < NSL
      invariant |units| <= NSL
      invariant forall i, j :: 0 <= i < j < |units| ==> units[i] != units[j]
      invariant forall i {:trigger units[i].ttyp} {:trigger units[i].ep} :: 0 <= i < |units| ==>
                  units[i].ttyp == null && units[i].ep == 0
    {
      var u := new Receiver();
      units := units + [u];
    }
    var arena := new Arena();
    s := new Slip(units, arena);
  }
}
