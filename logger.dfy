/** `vxLogger`: a named logger with a final, optional parent and a name-keyed table of
    transports. Logging hands the message to every local transport whose level it reaches,
    then repeats the call at the parent. What a transport does with a message is outside the
    model: `receive` is recorded in a ghost delivery log, one sequence per transport name. */
module Loggers {
  import opened Outcomes
  import opened LoggingLevels

  /** A `Transport` as the logger sees it: its name and its level. */
  datatype Transport = Transport(name: string, level: LoggingLevel)

  /** `Transport.TransportedMessage`: the text, the logger that delivered it, and its level. */
  datatype TransportedMessage = TransportedMessage(message: string, logger: Logger, level: LoggingLevel)

  /** The filter of `log`: a transport receives messages at or above its own level. */
  predicate Accepts(t: Transport, level: LoggingLevel) {
    AtLeast(level, t.level)
  }

  const EMPTY_NAME := IllegalArgument("Logger name cannot be an empty String")
  const DUPLICATE_TRANSPORT := IllegalArgument("Transport with given name already present")

  // ---------------------------------------------------------------------------------------
  // Delivery, as a specification

  /** The delivery log after `m` has been handed to every transport that accepts its level. */
  ghost function Delivered(inbox: map<string, seq<TransportedMessage>>, transports: map<string, Transport>,
                           m: TransportedMessage): map<string, seq<TransportedMessage>>
    requires inbox.Keys == transports.Keys
  {
    map k | k in inbox :: if Accepts(transports[k], m.level) then inbox[k] + [m] else inbox[k]
  }

  /** Every message in a transport's log reached that transport's level. */
  ghost predicate RespectsLevels(inbox: map<string, seq<TransportedMessage>>, transports: map<string, Transport>)
    requires inbox.Keys == transports.Keys
  {
    forall k, i | k in inbox && 0 <= i < |inbox[k]| :: Accepts(transports[k], inbox[k][i].level)
  }

  /** Delivery loses nothing and adds `m` to exactly the transports whose level it reaches;
      messages below a transport's level never reach it. */
  lemma DeliveryMeans(inbox: map<string, seq<TransportedMessage>>, transports: map<string, Transport>,
                      m: TransportedMessage, k: string)
    requires inbox.Keys == transports.Keys && k in inbox
    ensures Delivered(inbox, transports, m).Keys == inbox.Keys
    ensures inbox[k] <= Delivered(inbox, transports, m)[k]
    ensures |Delivered(inbox, transports, m)[k]| == |inbox[k]| + 1 <==> Accepts(transports[k], m.level)
    ensures Accepts(transports[k], m.level) ==> Delivered(inbox, transports, m)[k][|inbox[k]|] == m
  {
  }

  /** Delivery keeps every transport's log within that transport's level. */
  lemma DeliveryRespectsLevels(inbox: map<string, seq<TransportedMessage>>, transports: map<string, Transport>,
                               m: TransportedMessage)
    requires inbox.Keys == transports.Keys && RespectsLevels(inbox, transports)
    ensures Delivered(inbox, transports, m).Keys == transports.Keys
    ensures RespectsLevels(Delivered(inbox, transports, m), transports)
  {
    var after: map<string, seq<TransportedMessage>> := Delivered(inbox, transports, m);
    forall k: string, i: int | k in after && 0 <= i < |after[k]|
      ensures Accepts(transports[k], after[k][i].level)
    {
      if i < |inbox[k]| {
        assert after[k][i] == inbox[k][i];
      }
    }
  }

  /** A log in which every transport has had its turn is the delivered log. */
  lemma DeliveredEverywhere(inbox: map<string, seq<TransportedMessage>>, before: map<string, seq<TransportedMessage>>,
                            transports: map<string, Transport>, m: TransportedMessage)
    requires inbox.Keys == before.Keys == transports.Keys
    requires forall k | k in inbox ::
      inbox[k] == if Accepts(transports[k], m.level) then before[k] + [m] else before[k]
    ensures inbox == Delivered(before, transports, m)
  {
  }

  /** The delivery loop part-way through: the transports outside `pending` have had their
      turn, and those in it still hold their old logs. */
  ghost predicate PartlyDelivered(inbox: map<string, seq<TransportedMessage>>, before: map<string, seq<TransportedMessage>>,
                                  transports: map<string, Transport>, m: TransportedMessage, pending: set<string>)
  {
    && inbox.Keys == before.Keys == transports.Keys && pending <= transports.Keys
    && (forall k | k in inbox && k !in pending ::
          inbox[k] == if Accepts(transports[k], m.level) then before[k] + [m] else before[k])
    && (forall k | k in pending :: inbox[k] == before[k])
  }

  /** One turn of the delivery loop: the transport `k` receives the message when it accepts
      its level and is then done. */
  lemma DeliveryTurn(inbox: map<string, seq<TransportedMessage>>, before: map<string, seq<TransportedMessage>>,
                     transports: map<string, Transport>, m: TransportedMessage, pending: set<string>, k: string)
    requires PartlyDelivered(inbox, before, transports, m, pending) && k in pending
    ensures Accepts(transports[k], m.level) ==>
              PartlyDelivered(inbox[k := inbox[k] + [m]], before, transports, m, pending - {k})
    ensures !Accepts(transports[k], m.level) ==> PartlyDelivered(inbox, before, transports, m, pending - {k})
  {
  }

  /** With a single transport, delivery is a single append or nothing. */
  lemma DeliveredToOne(name: string, t: Transport, log: seq<TransportedMessage>, m: TransportedMessage)
    ensures Delivered(map[name := log], map[name := t], m)
         == map[name := if Accepts(t, m.level) then log + [m] else log]
  {
    var d := Delivered(map[name := log], map[name := t], m);
    assert d.Keys == {name};
  }

  // ---------------------------------------------------------------------------------------
  // Initial transports

  /** The names of `ts` are pairwise different. */
  predicate DistinctNames(ts: seq<Transport>) {
    forall i, j | 0 <= i < j < |ts| :: ts[i].name != ts[j].name
  }

  /** The table built by adding `ts` one at a time. */
  function TransportTable(ts: seq<Transport>): map<string, Transport>
    decreases |ts|
  {
    if |ts| == 0 then map[] else TransportTable(ts[..|ts| - 1])[ts[|ts| - 1].name := ts[|ts| - 1]]
  }

  /** The table holds an entry for every name among `ts` and for nothing else. */
  lemma {:induction false} TransportTableKeys(ts: seq<Transport>)
    ensures TransportTable(ts).Keys == set t | t in ts :: t.name
    decreases |ts|
  {
    if |ts| > 0 {
      var init, last := ts[..|ts| - 1], ts[|ts| - 1];
      TransportTableKeys(init);
      assert ts == init + [last];
      assert (set t | t in ts :: t.name) == (set t | t in init :: t.name) + {last.name};
    }
  }

  /** With distinct names, every transport of `ts` is the entry under its name. */
  lemma {:induction false} TransportTableValues(ts: seq<Transport>)
    requires DistinctNames(ts)
    ensures forall i | 0 <= i < |ts| ::
              ts[i].name in TransportTable(ts) && TransportTable(ts)[ts[i].name] == ts[i]
    decreases |ts|
  {
    if |ts| > 0 {
      var init := ts[..|ts| - 1];
      assert DistinctNames(init);
      TransportTableValues(init);
      TransportTableKeys(init);
      forall i | 0 <= i < |ts|
        ensures ts[i].name in TransportTable(ts) && TransportTable(ts)[ts[i].name] == ts[i]
      {
        if i < |ts| - 1 {
          assert ts[i] == init[i];
        }
      }
    }
  }

  /** Adding the next transport: a name already in the table means `ts` repeats a name, and
      a new name extends the table by that one entry and keeps the names distinct. */
  lemma {:induction false} TransportTableStep(ts: seq<Transport>, i: nat)
    requires i < |ts| && DistinctNames(ts[..i])
    ensures ts[i].name in TransportTable(ts[..i]) ==> !DistinctNames(ts)
    ensures ts[i].name !in TransportTable(ts[..i]) ==>
              && DistinctNames(ts[..i + 1])
              && TransportTable(ts[..i + 1]) == TransportTable(ts[..i])[ts[i].name := ts[i]]
  {
    var init := ts[..i];
    TransportTableKeys(init);
    if ts[i].name in TransportTable(init) {
      var t :| t in init && t.name == ts[i].name;
      var j :| 0 <= j < i && init[j] == t;
      assert ts[j].name == ts[i].name;
    } else {
      assert ts[..i + 1][..i] == init;
      forall j | 0 <= j < i
        ensures ts[j].name != ts[i].name
      {
        assert ts[j] in init;
      }
    }
  }

  // ---------------------------------------------------------------------------------------
  // The logger

  class Logger {
    const name: string
    const parent: Logger?
    var transports: map<string, Transport>

    /** What this logger has handed to each of its transports, oldest first. */
    ghost var inbox: map<string, seq<TransportedMessage>>
    /** The loggers above this one, and the length of the parent chain. */
    ghost const above: set<Logger>
    ghost const depth: nat

    /** This logger and every logger above it: the loggers one `log` call reaches. */
    ghost function Chain(): set<Logger> {
      {this} + above
    }

    /** The parent chain is finite: each parent is one level less deep, and the loggers above
        this one are those above the parent plus the parent itself. */
    ghost predicate ChainValid()
      decreases depth
    {
      && |name| > 0
      && (parent == null ==> depth == 0 && above == {})
      && (parent != null ==> depth == parent.depth + 1 && above == {parent} + parent.above && parent.ChainValid())
    }

    /** The transport table of one logger: each transport under its own name, a log for each,
        and no message below a transport's level in its log. */
    ghost predicate LocalValid()
      reads this
    {
      && inbox.Keys == transports.Keys
      && (forall k | k in transports :: transports[k].name == k)
      && RespectsLevels(inbox, transports)
    }

    ghost predicate Valid()
      reads Chain()
    {
      ChainValid() && forall a | a in Chain() :: a.LocalValid()
    }

    /** Every logger above is less deep and itself well formed, so none of them is this one. */
    lemma {:induction false} AboveIsShallower()
      requires ChainValid()
      ensures forall a | a in above :: a.depth < depth && a.ChainValid()
      ensures this !in above
      decreases depth
    {
      if parent != null {
        parent.AboveIsShallower();
      }
    }

    /** The part of the constructor that cannot fail: the name and parent are stored and the
        table is empty. */
    constructor Init(name: string, parent: Logger?)
      requires |name| > 0
      requires parent != null ==> parent.ChainValid()
      ensures this.name == name && this.parent == parent
      ensures transports == map[] && inbox == map[]
      ensures above == (if parent == null then {} else {parent} + parent.above)
      ensures ChainValid() && LocalValid()
    {
      this.name := name;
      this.parent := parent;
      this.above := if parent == null then {} else {parent} + parent.above;
      this.depth := if parent == null then 0 else parent.depth + 1;
      this.transports := map[];
      this.inbox := map[];
    }

    /** `new vxLogger(name, parent, transports...)`: fails on an empty name, then adds the
        initial transports one at a time, so that a repeated name among them fails too. */
    static method Create(name: string, parent: Logger?, initial: seq<Transport>) returns (r: Result<Logger, IllegalArgument>)
      requires parent != null ==> parent.Valid()
      ensures |name| == 0 ==> r == Err(EMPTY_NAME)
      ensures |name| > 0 && !DistinctNames(initial) ==> r == Err(DUPLICATE_TRANSPORT)
      ensures |name| > 0 && DistinctNames(initial) ==> r.Ok?
      ensures r.Ok? ==> && fresh(r.value) && r.value.Valid()
                        && r.value.name == name && r.value.parent == parent
                        && r.value.transports == TransportTable(initial)
                        && (forall k | k in r.value.inbox :: r.value.inbox[k] == [])
    {
      if |name| == 0 {
        return Err(EMPTY_NAME);
      }
      var l := new Logger.Init(name, parent);
      if parent != null {
        parent.AboveIsShallower();
      }
      var i := 0;
      while i < |initial|
        invariant 0 <= i <= |initial|
        invariant fresh(l) && l.name == name && l.parent == parent && l.Valid()
        invariant DistinctNames(initial[..i])
        invariant l.transports == TransportTable(initial[..i])
        invariant forall k | k in l.inbox :: l.inbox[k] == []
      {
        TransportTableStep(initial, i);
        var added := l.Add(initial[i]);
        if added.Err? {
          return Err(added.error);
        }
        i := i + 1;
      }
      assert initial[..i] == initial;
      return Ok(l);
    }

    /** `add(transport)`: a name already present is refused and nothing changes; otherwise
        exactly that entry is added, with an empty log, and the logger itself is returned. */
    method Add(t: Transport) returns (r: Result<Logger, IllegalArgument>)
      requires Valid()
      modifies this
      ensures Valid()
      ensures t.name in old(transports) ==> r == Err(DUPLICATE_TRANSPORT) && transports == old(transports)
      ensures t.name !in old(transports) ==> r == Ok(this) && transports == old(transports)[t.name := t]
      ensures inbox == if t.name in old(transports) then old(inbox) else old(inbox)[t.name := []]
    {
      AboveIsShallower();
      if t.name in transports {
        return Err(DUPLICATE_TRANSPORT);
      }
      transports := transports[t.name := t];
      inbox := inbox[t.name := []];
      return Ok(this);
    }

    /** The local half of `log`: the transports of this logger, in no particular order, each
        receive the message when it reaches their level. */
    method DeliverLocally(level: LoggingLevel, message: string)
      requires LocalValid()
      modifies this`inbox
      ensures LocalValid() && transports == old(transports)
      ensures inbox == Delivered(old(inbox), transports, TransportedMessage(message, this, level))
    {
      ghost var m := TransportedMessage(message, this, level);
      ghost var before := inbox;
      var pending := transports.Keys;
      while pending != {}
        invariant PartlyDelivered(inbox, before, transports, m, pending)
        decreases pending
      {
        var k :| k in pending;
        DeliveryTurn(inbox, before, transports, m, pending, k);
        if AtLeast(level, transports[k].level) {
          inbox := inbox[k := inbox[k] + [m]];
        }
        pending := pending - {k};
      }
      DeliveredEverywhere(inbox, before, transports, m);
      DeliveryRespectsLevels(before, transports, m);
    }

    /** `log(level, message)`: every transport of every logger in the chain whose level the
        message reaches receives it, tagged with the logger that delivered it; the tables
        themselves do not change. */
    method Log(level: LoggingLevel, message: string)
      requires Valid()
      modifies Chain()`inbox
      ensures Valid()
      ensures forall a | a in Chain() :: a.transports == old(a.transports)
      ensures forall a | a in Chain() ::
        a.inbox == Delivered(old(a.inbox), a.transports, TransportedMessage(message, a, level))
      decreases depth
    {
      AboveIsShallower();
      DeliverLocally(level, message);
      if parent != null {
        assert parent.Chain() == above;
        parent.Log(level, message);
        forall a | a in Chain()
          ensures a.transports == old(a.transports)
          ensures a.inbox == Delivered(old(a.inbox), a.transports, TransportedMessage(message, a, level))
        {
          if a != this {
            assert a in parent.Chain();
          }
        }
      }
    }

    /** `silly(message)`: `log` at SILLY. */
    method Silly(message: string)
      requires Valid()
      modifies Chain()`inbox
      ensures Valid()
      ensures forall a | a in Chain() :: a.transports == old(a.transports)
      ensures forall a | a in Chain() ::
        a.inbox == Delivered(old(a.inbox), a.transports, TransportedMessage(message, a, SILLY))
    {
      Log(SILLY, message);
    }

    /** `debug(message)`: `log` at DEBUG. */
    method Debug(message: string)
      requires Valid()
      modifies Chain()`inbox
      ensures Valid()
      ensures forall a | a in Chain() :: a.transports == old(a.transports)
      ensures forall a | a in Chain() ::
        a.inbox == Delivered(old(a.inbox), a.transports, TransportedMessage(message, a, DEBUG))
    {
      Log(DEBUG, message);
    }

    /** `verbose(message)`: `log` at VERBOSE. */
    method Verbose(message: string)
      requires Valid()
      modifies Chain()`inbox
      ensures Valid()
      ensures forall a | a in Chain() :: a.transports == old(a.transports)
      ensures forall a | a in Chain() ::
        a.inbox == Delivered(old(a.inbox), a.transports, TransportedMessage(message, a, VERBOSE))
    {
      Log(VERBOSE, message);
    }

    /** `info(message)`: `log` at INFO. */
    method Info(message: string)
      requires Valid()
      modifies Chain()`inbox
      ensures Valid()
      ensures forall a | a in Chain() :: a.transports == old(a.transports)
      ensures forall a | a in Chain() ::
        a.inbox == Delivered(old(a.inbox), a.transports, TransportedMessage(message, a, INFO))
    {
      Log(INFO, message);
    }

    /** `warning(message)`: `log` at WARNING. */
    method Warning(message: string)
      requires Valid()
      modifies Chain()`inbox
      ensures Valid()
      ensures forall a | a in Chain() :: a.transports == old(a.transports)
      ensures forall a | a in Chain() ::
        a.inbox == Delivered(old(a.inbox), a.transports, TransportedMessage(message, a, WARNING))
    {
      Log(WARNING, message);
    }

    /** `error(message)`: `log` at ERROR. */
    method Error(message: string)
      requires Valid()
      modifies Chain()`inbox
      ensures Valid()
      ensures forall a | a in Chain() :: a.transports == old(a.transports)
      ensures forall a | a in Chain() ::
        a.inbox == Delivered(old(a.inbox), a.transports, TransportedMessage(message, a, ERROR))
    {
      Log(ERROR, message);
    }
  }

  /** The transports of the example below: a console showing INFO and above, and a file
      that keeps everything. */
  const CONSOLE := Transport("console", INFO)
  const FILE := Transport("file", SILLY)

  /** The loggers of the example below: a plugin logger writing to the console, and a module
      logger under it writing to the file. */
  method ExampleLoggers() returns (sub: Logger, plugin: Logger)
    ensures fresh(sub) && fresh(plugin) && sub.parent == plugin && sub.Valid()
    ensures sub.Chain() == {sub, plugin}
    ensures sub.transports == map["file" := FILE] && sub.inbox == map["file" := []]
    ensures plugin.transports == map["console" := CONSOLE] && plugin.inbox == map["console" := []]
  {
    var p := Logger.Create("plugin", null, [CONSOLE]);
    assert DistinctNames([CONSOLE]);
    plugin := p.value;
    assert plugin.inbox == map["console" := []] by {
      assert plugin in plugin.Chain() && plugin.LocalValid();
    }
    var m := Logger.Create("sub", plugin, [FILE]);
    assert DistinctNames([FILE]);
    sub := m.value;
    assert sub.inbox == map["file" := []] by {
      assert sub in sub.Chain() && sub.LocalValid();
    }
  }

  /** One `log` call on the module logger of the example: the file always receives the
      message, and the console above it receives its own copy from INFO on. */
  method LogThroughExample(sub: Logger, plugin: Logger, level: LoggingLevel, message: string)
    requires sub.Valid() && sub.parent == plugin && sub.Chain() == {sub, plugin}
    requires sub.transports == map["file" := FILE] && plugin.transports == map["console" := CONSOLE]
    modifies sub`inbox, plugin`inbox
    ensures sub.Valid() && sub.transports == old(sub.transports) && plugin.transports == old(plugin.transports)
    ensures "file" in old(sub.inbox) && "console" in old(plugin.inbox)
    ensures sub.inbox == map["file" := old(sub.inbox)["file"] + [TransportedMessage(message, sub, level)]]
    ensures plugin.inbox == map["console" := if AtLeast(level, INFO)
                                             then old(plugin.inbox)["console"] + [TransportedMessage(message, plugin, level)]
                                             else old(plugin.inbox)["console"]]
  {
    assert sub in sub.Chain() && plugin in sub.Chain();
    ghost var file, console := sub.inbox["file"], plugin.inbox["console"];
    assert sub.inbox == map["file" := file];
    assert plugin.inbox == map["console" := console];
    sub.Log(level, message);
    DeliveredToOne("file", FILE, file, TransportedMessage(message, sub, level));
    DeliveredToOne("console", CONSOLE, console, TransportedMessage(message, plugin, level));
  }

  /** With the loggers above, a DEBUG line from the module reaches only the file, a WARNING
      line reaches both, and each copy names the logger that delivered it. */
  method FanOutExample() returns (sub: Logger, plugin: Logger)
    ensures sub.parent == plugin
    ensures sub.inbox == map["file" := [TransportedMessage("starting", sub, DEBUG),
                                        TransportedMessage("disk low", sub, WARNING)]]
    ensures plugin.inbox == map["console" := [TransportedMessage("disk low", plugin, WARNING)]]
  {
    sub, plugin := ExampleLoggers();
    var starting := TransportedMessage("starting", sub, DEBUG);
    assert !AtLeast(DEBUG, INFO) && AtLeast(WARNING, INFO);
    LogThroughExample(sub, plugin, DEBUG, "starting");
    ghost var file, console := sub.inbox, plugin.inbox;
    assert file["file"] == [starting] && console["console"] == [];
    LogThroughExample(sub, plugin, WARNING, "disk low");
    Appended(starting, TransportedMessage("disk low", sub, WARNING));
    Appended(starting, TransportedMessage("disk low", plugin, WARNING));
  }

  /** Appending to a log of one message, and to an empty log.
      Stated on its own so that the proofs that use it stay small for the solver. */
  lemma Appended(a: TransportedMessage, b: TransportedMessage)
    ensures [a] + [b] == [a, b] && [] + [b] == [b]
  {
  }
}
