/** The feature-report channel to the controller, seen from the host: every
    request the host makes is logged, and whether it succeeds (and, for a
    Get_Report, what comes back) is decided by an oracle over that log. */
module Transport {
  import opened Frames

  /** One request made of the device, in the order the host makes them. A
      feature report is logged as the command its frame describes on its
      report number (`Parse`), or `None` for a frame that describes none.
      For a Set_Report that is what the controller receives. A Get_Report
      sends the controller only its report number and `size`: its entry
      records the request the host's buffer describes, whose header never
      leaves the host. `ParseFrame` and `FrameParse` show that this loses
      nothing for the frames the host builds. */
  datatype Request =
    | SetFeature(carried: Option<Command>)             // HID Set_Report(Feature)
    | GetFeature(carried: Option<Command>, size: nat)  // HID Get_Report(Feature), offering a buffer of `size` bytes
    | Settle(ms: nat)                                  // a mandatory wait: never fails
    | BusReset                                         // USB port reset

  /** The request for a frame sent with Set_Report on report number `report`. */
  function SetRequest(report: Byte, frame: seq<Byte>): Request
  {
    SetFeature(Parse(report, frame))
  }

  /** The request for a Get_Report on report number `report` offering the buffer `frame`. */
  function GetRequest(report: Byte, frame: seq<Byte>): Request
  {
    GetFeature(Parse(report, frame), |frame|)
  }

  /** The device and the bus, as far as the host can observe them. Both functions
      see the log up to and including the request being answered. */
  datatype Port = Port(
    accepts: seq<Request> -> bool,
    answer: seq<Request> -> Option<seq<Byte>>)

  /** The wait after each block read or write, in milliseconds. */
  const BlockSettleMs: nat := 10
  /** The wait after an erase, in milliseconds. */
  const EraseSettleMs: nat := 2000

  /** The result of the last request of `log`: `None` if it failed, otherwise
      the bytes it brought back (empty for anything but a Get_Report). A
      Get_Report fails unless the reply fills the host's buffer exactly. */
  function Perform(port: Port, log: seq<Request>): (r: Option<seq<Byte>>)
    requires log != []
    ensures r.Some? && log[|log| - 1].GetFeature? ==> |r.value| == log[|log| - 1].size
  {
    match log[|log| - 1]
    case SetFeature(_) => if port.accepts(log) then Some([]) else None
    case BusReset => if port.accepts(log) then Some([]) else None
    case Settle(_) => Some([])
    case GetFeature(_, size) =>
      var reply := port.answer(log);
      if reply.Some? && |reply.value| == size then reply else None
  }

  /** What running a plan of requests did: whether every request succeeded,
      the log afterwards, and the replies of its Get_Reports, in order. */
  datatype Exchange = Exchange(ok: bool, log: seq<Request>, replies: seq<seq<Byte>>)

  /** Issue the requests of `plan` one after another until one fails; nothing
      after a failed request is issued. */
  function Run(port: Port, log: seq<Request>, plan: seq<Request>): Exchange
    decreases |plan|
  {
    if plan == [] then Exchange(true, log, [])
    else
      var h := log + [plan[0]];
      match Perform(port, h)
      case None => Exchange(false, h, [])
      case Some(reply) =>
        var rest := Run(port, h, plan[1..]);
        Exchange(rest.ok, rest.log, (if plan[0].GetFeature? then [reply] else []) + rest.replies)
  }

  /** A run issues a prefix of its plan, in order. It succeeds exactly when it
      issued the whole plan and every request succeeded; when it fails, the
      last request issued is the one that failed and all before it succeeded. */
  ghost predicate StopsAtFirstFailure(port: Port, log: seq<Request>, plan: seq<Request>)
  {
    var x := Run(port, log, plan);
    && |log| <= |x.log| <= |log| + |plan|
    && x.log == log + plan[..|x.log| - |log|]
    && (forall k :: |log| < k < |x.log| ==> Perform(port, x.log[..k]).Some?)
    && (x.ok <==> x.log == log + plan && forall k :: |log| < k <= |x.log| ==> Perform(port, x.log[..k]).Some?)
    && (!x.ok ==> |log| < |x.log| && Perform(port, x.log).None?)
  }

  lemma {:induction false} RunStopsAtFirstFailure(port: Port, log: seq<Request>, plan: seq<Request>)
    ensures StopsAtFirstFailure(port, log, plan)
    decreases |plan|
  {
    if plan != [] {
      var h := log + [plan[0]];
      assert h[..|h|] == h;
      if Perform(port, h).Some? {
        RunStopsAtFirstFailure(port, h, plan[1..]);
        StopsAfterSuccess(port, log, plan);
      }
    }
  }

  /** A request that succeeds extends a run that stops at its first failure. */
  lemma StopsAfterSuccess(port: Port, log: seq<Request>, plan: seq<Request>)
    requires plan != [] && Perform(port, log + [plan[0]]).Some?
    requires StopsAtFirstFailure(port, log + [plan[0]], plan[1..])
    ensures StopsAtFirstFailure(port, log, plan)
  {
    var h := log + [plan[0]];
    var x, rest := Run(port, log, plan), Run(port, h, plan[1..]);
    assert x.log == rest.log && x.ok == rest.ok;
    var m := |rest.log| - |h|;
    assert plan[..m + 1] == [plan[0]] + plan[1..][..m];
    assert x.log == log + plan[..|x.log| - |log|];
    forall k | |log| < k <= |x.log| && (k < |x.log| || x.ok)
      ensures Perform(port, x.log[..k]).Some?
    {
      if k == |h| {
        assert x.log[..k] == h;
      }
    }
  }

  /** Continue after `x` with `plan`, unless `x` already failed. */
  function Then(port: Port, x: Exchange, plan: seq<Request>): Exchange
  {
    if !x.ok then x
    else
      var y := Run(port, x.log, plan);
      Exchange(y.ok, y.log, x.replies + y.replies)
  }

  /** Running two plans back to back is running the first, then the second if the first succeeded. */
  lemma {:induction false} RunAppend(port: Port, log: seq<Request>, p: seq<Request>, q: seq<Request>)
    ensures Run(port, log, p + q) == Then(port, Run(port, log, p), q)
    decreases |p|
  {
    if p == [] {
      assert p + q == q;
    } else {
      DropAppend(p, q);
      var h := log + [p[0]];
      match Perform(port, h)
      case None =>
      case Some(_) =>
        RunAppend(port, h, p[1..], q);
    }
  }

  /** The requests one command makes: its frame, then the wait or reset that
      follows it. A block read offers a buffer as long as its request frame. */
  function Transfer(c: Command): (p: seq<Request>)
    ensures |p| >= 1
  {
    var request :=
      if c.ReadBlock? then GetFeature(Some(c), c.size + 2)
      else SetFeature(Some(c));
    var after :=
      match c
      case Erase => [Settle(EraseSettleMs)]
      case ReadBlock(_) => [Settle(BlockSettleMs)]
      case WriteBlock(_) => [Settle(BlockSettleMs)]
      case Attach => [BusReset]
      case _ => [];
    [request] + after
  }

  /** The requests a sequence of commands makes, in order. */
  function Plan(cmds: seq<Command>): seq<Request>
  {
    if cmds == [] then [] else Plan(cmds[..|cmds| - 1]) + Transfer(cmds[|cmds| - 1])
  }

  lemma {:induction false} PlanAppend(a: seq<Command>, b: seq<Command>)
    ensures Plan(a + b) == Plan(a) + Plan(b)
    decreases |b|
  {
    if b == [] {
      assert a + b == a;
    } else {
      var b', c := b[..|b| - 1], b[|b| - 1];
      assert (a + b)[..|a + b| - 1] == a + b' && (a + b)[|a + b| - 1] == c;
      PlanAppend(a, b');
      assert Plan(a + b) == Plan(a + b') + Transfer(c);
      assert Plan(b) == Plan(b') + Transfer(c);
    }
  }

  /** The command one request carries: waits and resets carry none, and an
      unreadable frame is skipped. */
  function Carried(r: Request): seq<Command>
  {
    if (r.SetFeature? || r.GetFeature?) && r.carried.Some? then [r.carried.value] else []
  }

  /** The commands a log carries, in order. */
  function Decode(log: seq<Request>): seq<Command>
  {
    if log == [] then [] else Decode(log[..|log| - 1]) + Carried(log[|log| - 1])
  }

  lemma {:induction false} DecodeAppend(a: seq<Request>, b: seq<Request>)
    ensures Decode(a + b) == Decode(a) + Decode(b)
    decreases |b|
  {
    if b == [] {
      assert a + b == a;
    } else {
      InitAppend(a, b);
      DecodeAppend(a, b[..|b| - 1]);
    }
  }

  /** One command's traffic reads back as that command. */
  lemma DecodeTransfer(c: Command)
    ensures Decode(Transfer(c)) == [c]
  {
    var t := Transfer(c);
    assert Carried(t[0]) == [c];
    assert [t[0]][..0] == [];
    if |t| == 2 {
      assert Carried(t[1]) == [];
      assert t[..1] == [t[0]];
      assert Decode(t[..1]) == [c];
    } else {
      assert t == [t[0]];
    }
  }

  /** The wire traffic of a command sequence reads back as exactly that sequence. */
  lemma {:induction false} DecodePlan(cmds: seq<Command>)
    ensures Decode(Plan(cmds)) == cmds
    decreases |cmds|
  {
    if cmds != [] {
      var c := cmds[|cmds| - 1];
      DecodePlan(cmds[..|cmds| - 1]);
      DecodeAppend(Plan(cmds[..|cmds| - 1]), Transfer(c));
      DecodeTransfer(c);
      LastSplit(cmds);
    }
  }

  /** The first request of a command already carries the whole command. */
  lemma DecodeTransferStart(c: Command, m: nat)
    requires 1 <= m <= |Transfer(c)|
    ensures Decode(Transfer(c)[..m]) == [c]
  {
    var t := Transfer(c);
    DecodeTransfer(c);
    if m < |t| {
      assert t[..m] == [t[0]] && [t[0]][..0] == [];
    } else {
      assert t[..m] == t;
    }
  }

  /** Traffic cut off after the first request of the last command reads back as all the commands. */
  lemma DecodeLastStarted(cmds: seq<Command>, k: nat)
    requires cmds != [] && |Plan(cmds[..|cmds| - 1])| < k <= |Plan(cmds)|
    ensures Decode(Plan(cmds)[..k]) == cmds
  {
    var init, c := cmds[..|cmds| - 1], cmds[|cmds| - 1];
    var p, t := Plan(init), Transfer(c);
    var m := k - |p|;
    assert Plan(cmds)[..k] == p + t[..m] by {
      assert Plan(cmds) == p + t;
      TakeAppend(p, t, k);
    }
    assert Decode(p + t[..m]) == init + [c] by {
      DecodeAppend(p, t[..m]);
      DecodePlan(init);
      DecodeTransferStart(c, m);
    }
    LastSplit(cmds);
  }

  lemma DropAppend<T>(a: seq<T>, b: seq<T>)
    requires a != []
    ensures (a + b)[0] == a[0] && (a + b)[1..] == a[1..] + b
  {
  }

  lemma InitAppend<T>(a: seq<T>, b: seq<T>)
    requires b != []
    ensures (a + b)[..|a + b| - 1] == a + b[..|b| - 1] && (a + b)[|a + b| - 1] == b[|b| - 1]
  {
  }

  lemma TakeAppend<T>(a: seq<T>, b: seq<T>, k: nat)
    requires |a| <= k <= |a| + |b|
    ensures (a + b)[..k] == a + b[..k - |a|]
  {
  }

  lemma LastSplit<T>(s: seq<T>)
    requires s != []
    ensures s[..|s| - 1] + [s[|s| - 1]] == s
  {
  }

  /** Traffic cut off anywhere reads back as a prefix of the commands: those
      whose first request it reached. */
  lemma {:induction false} DecodePlanPrefix(cmds: seq<Command>, k: nat)
    requires k <= |Plan(cmds)|
    ensures Decode(Plan(cmds)[..k]) <= cmds
    decreases |cmds|
  {
    if cmds != [] {
      var init, c := cmds[..|cmds| - 1], cmds[|cmds| - 1];
      var p := Plan(init);
      if k <= |p| {
        DecodePlanPrefix(init, k);
        assert Plan(cmds)[..k] == p[..k];
      } else {
        DecodeLastStarted(cmds, k);
      }
    }
  }
}
