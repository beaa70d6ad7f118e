/**
  Filling in missing port numbers of a list of controllers.

  Ports set by the user are kept.  Missing ones count up from a base per kind of port and skip the user's ports seen
  so far.
 */
module ControllerPorts {
  import opened Options
  import opened Sets

  datatype PortKey = CtrlrPort | AggPort | AppPort | BtSeederPort

  datatype Controller = Controller(ctrlr: Option<int>, agg: Option<int>, app: Option<int>, btSeeder: Option<int>)

  function Base(key: PortKey): int {
    match key
    case CtrlrPort => 7007
    case AggPort => 8007
    case AppPort => 17077
    case BtSeederPort => 6881
  }

  // One port of one controller, set by the user or not
  datatype Slot = Slot(key: PortKey, configured: Option<int>)

  // The order in which the ports are looked at
  function Slots(controllers: seq<Controller>): seq<Slot> {
    if controllers == [] then []
    else
      var c := controllers[|controllers| - 1];
      Slots(controllers[..|controllers| - 1])
      + [Slot(CtrlrPort, c.ctrlr), Slot(AggPort, c.agg), Slot(AppPort, c.app), Slot(BtSeederPort, c.btSeeder)]
  }

  // ---------- the assignment ----------

  function Above(used: set<int>, port: int): set<int> {
    set u | u in used && u >= port
  }

  function FirstFree(port: int, used: set<int>): (free: int)
    ensures port <= free && free !in used && forall p :: port <= p < free ==> p in used
    decreases Above(used, port)
  {
    if port !in used then port
    else
      assert port in Above(used, port) && port !in Above(used, port + 1);
      FirstFree(port + 1, used)
  }

  function UsedBefore(slots: seq<Slot>, n: nat): set<int>
    requires n <= |slots|
  {
    if n == 0 then {}
    else UsedBefore(slots, n - 1) + if slots[n - 1].configured.Some? then {slots[n - 1].configured.value} else {}
  }

  function NextBefore(slots: seq<Slot>, n: nat, key: PortKey): int
    requires n <= |slots|
    decreases n, 0
  {
    if n == 0 then Base(key)
    else if slots[n - 1] == Slot(key, None) then PortOf(slots, n - 1) + 1
    else NextBefore(slots, n - 1, key)
  }

  lemma NextOneMore(slots: seq<Slot>, n: nat)
    requires n < |slots|
    ensures forall key :: NextBefore(slots, n + 1, key)
                          == if slots[n] == Slot(key, None) then PortOf(slots, n) + 1 else NextBefore(slots, n, key)
  {
  }

  function PortOf(slots: seq<Slot>, n: nat): int
    requires n < |slots|
    decreases n, 1
  {
    match slots[n].configured
    case Some(port) => port
    case None => FirstFree(NextBefore(slots, n, slots[n].key), UsedBefore(slots, n))
  }

  function Ports(slots: seq<Slot>, n: nat): seq<int>
    requires n <= |slots|
  {
    if n == 0 then [] else Ports(slots, n - 1) + [PortOf(slots, n - 1)]
  }

  class PortAllocator {
    var usedPorts: set<int>
    var ports: map<PortKey, int>

    ghost predicate After(slots: seq<Slot>, n: nat)
      requires n <= |slots|
      reads this
    {
      usedPorts == UsedBefore(slots, n) && forall key :: key in ports && ports[key] == NextBefore(slots, n, key)
    }

    constructor ()
      ensures forall slots :: After(slots, 0)
    {
      usedPorts := {};
      ports := map[CtrlrPort := 7007, AggPort := 8007, AppPort := 17077, BtSeederPort := 6881];
      new;
      forall key: PortKey ensures key in ports && ports[key] == Base(key) {
        match key {
          case CtrlrPort =>
          case AggPort =>
          case AppPort =>
          case BtSeederPort =>
        }
      }
    }

    method UseOrGenerate(key: PortKey, configured: Option<int>, ghost slots: seq<Slot>, ghost n: nat)
      returns (port: int)
      requires n < |slots| && slots[n] == Slot(key, configured) && After(slots, n)
      modifies this
      ensures After(slots, n + 1) && port == PortOf(slots, n)
    {
      NextOneMore(slots, n);
      match configured
      case Some(value) =>
        usedPorts := usedPorts + {value};
        port := value;
      case None =>
        port := ports[key];
        while port in usedPorts
          invariant FirstFree(port, usedPorts) == FirstFree(NextBefore(slots, n, key), UsedBefore(slots, n))
          invariant usedPorts == old(usedPorts) && ports == old(ports)
          decreases Above(usedPorts, port)
        {
          assert port in Above(usedPorts, port) && port !in Above(usedPorts, port + 1);
          port := port + 1;
        }
        ports := ports[key := port + 1];
    }
  }

  // The four ports of the i-th controller
  ghost predicate HoldsPorts(slots: seq<Slot>, i: nat, c: Controller)
    requires 4 * i + 4 <= |slots|
  {
    && c.ctrlr == Some(PortOf(slots, 4 * i)) && c.agg == Some(PortOf(slots, 4 * i + 1))
    && c.app == Some(PortOf(slots, 4 * i + 2)) && c.btSeeder == Some(PortOf(slots, 4 * i + 3))
  }

  method FillController(allocator: PortAllocator, c: Controller, ghost slots: seq<Slot>, ghost i: nat)
    returns (filled: Controller)
    requires 4 * i + 4 <= |slots| && allocator.After(slots, 4 * i)
    requires slots[4 * i] == Slot(CtrlrPort, c.ctrlr) && slots[4 * i + 1] == Slot(AggPort, c.agg)
    requires slots[4 * i + 2] == Slot(AppPort, c.app) && slots[4 * i + 3] == Slot(BtSeederPort, c.btSeeder)
    modifies allocator
    ensures allocator.After(slots, 4 * i + 4) && HoldsPorts(slots, i, filled)
  {
    ghost var n := 4 * i;
    var ctrlr := allocator.UseOrGenerate(CtrlrPort, c.ctrlr, slots, n);
    var agg := allocator.UseOrGenerate(AggPort, c.agg, slots, n + 1);
    var app := allocator.UseOrGenerate(AppPort, c.app, slots, n + 2);
    var btSeeder := allocator.UseOrGenerate(BtSeederPort, c.btSeeder, slots, n + 3);
    filled := Controller(Some(ctrlr), Some(agg), Some(app), Some(btSeeder));
  }

  method GetControllersList(controllers: seq<Controller>) returns (filled: seq<Controller>)
    ensures |filled| == |controllers|
    ensures var slots := Slots(controllers);
            Slots(filled) == seq(|slots|, i requires 0 <= i < |slots| => Slot(slots[i].key, Some(PortOf(slots, i))))
  {
    ghost var slots := Slots(controllers);
    SlotsLength(controllers);
    var allocator := new PortAllocator();
    assert allocator.After(slots, 0);
    filled := [];
    for i := 0 to |controllers|
      invariant fresh(allocator) && |filled| == i && allocator.After(slots, 4 * i)
      invariant forall j :: 0 <= j < i ==> HoldsPorts(slots, j, filled[j])
    {
      SlotsAt(controllers, i);
      var c := FillController(allocator, controllers[i], slots, i);
      filled := filled + [c];
    }
    SlotsFilled(controllers, filled);
  }

  lemma SlotsFilled(controllers: seq<Controller>, filled: seq<Controller>)
    requires |filled| == |controllers|
    requires |Slots(controllers)| == 4 * |controllers|
    requires forall j :: 0 <= j < |filled| ==> HoldsPorts(Slots(controllers), j, filled[j])
    ensures var slots := Slots(controllers);
            Slots(filled) == seq(|slots|, i requires 0 <= i < |slots| => Slot(slots[i].key, Some(PortOf(slots, i))))
  {
    var slots := Slots(controllers);
    SlotsLength(filled);
    forall i | 0 <= i < |slots|
      ensures Slots(filled)[i] == Slot(slots[i].key, Some(PortOf(slots, i)))
    {
      SlotFilled(controllers, filled, i / 4, i);
    }
  }

  lemma SlotFilled(controllers: seq<Controller>, filled: seq<Controller>, j: nat, i: nat)
    requires |filled| == |controllers| && j < |filled| && 4 * j <= i < 4 * j + 4
    requires |Slots(controllers)| == |Slots(filled)| == 4 * |controllers|
    requires HoldsPorts(Slots(controllers), j, filled[j])
    ensures Slots(filled)[i] == Slot(Slots(controllers)[i].key, Some(PortOf(Slots(controllers), i)))
  {
    SlotsAt(controllers, j);
    SlotsAt(filled, j);
  }

  lemma {:induction false} SlotsLength(controllers: seq<Controller>)
    ensures |Slots(controllers)| == 4 * |controllers|
  {
    if controllers != [] {
      SlotsLength(controllers[..|controllers| - 1]);
    }
  }

  lemma {:induction false} SlotsAt(controllers: seq<Controller>, i: nat)
    requires i < |controllers|
    ensures |Slots(controllers)| == 4 * |controllers|
    ensures var c, slots := controllers[i], Slots(controllers);
            && slots[4 * i] == Slot(CtrlrPort, c.ctrlr) && slots[4 * i + 1] == Slot(AggPort, c.agg)
            && slots[4 * i + 2] == Slot(AppPort, c.app) && slots[4 * i + 3] == Slot(BtSeederPort, c.btSeeder)
  {
    var front := controllers[..|controllers| - 1];
    SlotsLength(front);
    if i < |front| {
      SlotsAt(front, i);
    }
  }

  // ---------- the pigeonhole bound ----------

  // How many of the ports in [lo, hi) are in use
  function CountIn(used: set<int>, lo: int, hi: int): nat
    decreases hi - lo
  {
    if hi <= lo then 0 else CountIn(used, lo, hi - 1) + if hi - 1 in used then 1 else 0
  }

  function Generated(slots: seq<Slot>, n: nat, key: PortKey): nat
    requires n <= |slots|
  {
    if n == 0 then 0 else Generated(slots, n - 1, key) + if slots[n - 1] == Slot(key, None) then 1 else 0
  }

  lemma {:induction false} CountInAtMost(used: set<int>, lo: int, hi: int)
    ensures CountIn(used, lo, hi) <= |used|
    decreases hi - lo
  {
    if lo < hi {
      if hi - 1 in used {
        CountInAtMost(used - {hi - 1}, lo, hi - 1);
        CountInSame(used, used - {hi - 1}, lo, hi - 1);
      } else {
        CountInAtMost(used, lo, hi - 1);
      }
    }
  }

  lemma {:induction false} CountInSame(a: set<int>, b: set<int>, lo: int, hi: int)
    requires forall p :: lo <= p < hi ==> (p in a <==> p in b)
    ensures CountIn(a, lo, hi) == CountIn(b, lo, hi)
    decreases hi - lo
  {
    if lo < hi {
      CountInSame(a, b, lo, hi - 1);
    }
  }

  lemma {:induction false} CountInMonotone(a: set<int>, b: set<int>, lo: int, hi: int)
    requires a <= b
    ensures CountIn(a, lo, hi) <= CountIn(b, lo, hi)
    decreases hi - lo
  {
    if lo < hi {
      CountInMonotone(a, b, lo, hi - 1);
    }
  }

  lemma {:induction false} CountInFull(used: set<int>, lo: int, mid: int, hi: int)
    requires lo <= mid <= hi && forall p :: mid <= p < hi ==> p in used
    ensures CountIn(used, lo, hi) == CountIn(used, lo, mid) + (hi - mid)
    decreases hi - mid
  {
    if mid < hi {
      CountInFull(used, lo, mid, hi - 1);
    }
  }

  // Every port passed over was either generated for this key or in use
  lemma {:induction false} NextBound(slots: seq<Slot>, n: nat, key: PortKey)
    requires n <= |slots|
    ensures var next, used := NextBefore(slots, n, key), UsedBefore(slots, n);
            Base(key) <= next <= Base(key) + Generated(slots, n, key) + CountIn(used, Base(key), next)
  {
    if n > 0 {
      var k := n - 1;
      NextBound(slots, k, key);
      var before, next := NextBefore(slots, k, key), NextBefore(slots, n, key);
      CountInMonotone(UsedBefore(slots, k), UsedBefore(slots, n), Base(key), next);
      if slots[k] == Slot(key, None) {
        CountInFull(UsedBefore(slots, k), Base(key), before, PortOf(slots, k));
      }
    }
  }

  // A generated port exceeds the base by at most the earlier generated ports of its kind and the
  // ports in use
  lemma PortBound(slots: seq<Slot>, n: nat)
    requires n < |slots| && slots[n].configured.None?
    ensures var key, used := slots[n].key, UsedBefore(slots, n);
            Base(key) <= PortOf(slots, n) <= Base(key) + Generated(slots, n, key) + |used|
  {
    var key, used := slots[n].key, UsedBefore(slots, n);
    NextBound(slots, n, key);
    CountInFull(used, Base(key), NextBefore(slots, n, key), PortOf(slots, n));
    CountInAtMost(used, Base(key), PortOf(slots, n));
  }

  lemma {:induction false} NextAfterPort(slots: seq<Slot>, i: nat, n: nat, key: PortKey)
    requires i < n <= |slots| && slots[i] == Slot(key, None)
    ensures PortOf(slots, i) < NextBefore(slots, n, key)
  {
    if n > i + 1 {
      NextAfterPort(slots, i, n - 1, key);
    }
  }

  // Ports generated for one key strictly increase
  lemma PortsIncrease(slots: seq<Slot>, i: nat, j: nat)
    requires i < j < |slots| && slots[i].configured.None? && slots[j] == slots[i]
    ensures PortOf(slots, i) < PortOf(slots, j)
  {
    NextAfterPort(slots, i, j, slots[j].key);
  }

  // ---------- when all ports differ ----------

  // Where the ports generated for a key can end
  function Limit(slots: seq<Slot>, key: PortKey): int {
    Base(key) + Generated(slots, |slots|, key) + |UsedBefore(slots, |slots|)|
  }

  predicate RangesApart(slots: seq<Slot>) {
    && Limit(slots, BtSeederPort) <= Base(CtrlrPort)
    && Limit(slots, CtrlrPort) <= Base(AggPort)
    && Limit(slots, AggPort) <= Base(AppPort)
  }

  lemma {:induction false} CountsGrow(slots: seq<Slot>, n: nat, m: nat, key: PortKey)
    requires n <= m <= |slots|
    ensures Generated(slots, n, key) <= Generated(slots, m, key)
    ensures UsedBefore(slots, n) <= UsedBefore(slots, m)
    ensures n < m && slots[n] == Slot(key, None) ==> Generated(slots, n, key) < Generated(slots, m, key)
    decreases m - n
  {
    if n < m {
      CountsGrow(slots, n + 1, m, key);
    }
  }

  lemma PortInRange(slots: seq<Slot>, n: nat)
    requires n < |slots| && slots[n].configured.None?
    ensures Base(slots[n].key) <= PortOf(slots, n) < Limit(slots, slots[n].key)
  {
    PortBound(slots, n);
    CountsGrow(slots, n, |slots|, slots[n].key);
    SubsetSize(UsedBefore(slots, n), UsedBefore(slots, |slots|));
  }

  lemma {:induction false} UsedIs(slots: seq<Slot>, n: nat, i: nat)
    requires i < n <= |slots| && slots[i].configured.Some?
    ensures slots[i].configured.value in UsedBefore(slots, n)
  {
    if i < n - 1 {
      UsedIs(slots, n - 1, i);
    }
  }

  lemma GeneratedDiffers(slots: seq<Slot>, i: nat, j: nat)
    requires RangesApart(slots) && i < j < |slots| && slots[j].configured.None?
    ensures PortOf(slots, i) != PortOf(slots, j)
  {
    match slots[i].configured {
      case Some(_) =>
        UsedIs(slots, j, i);
      case None =>
        if slots[i].key == slots[j].key {
          PortsIncrease(slots, i, j);
        } else {
          PortInRange(slots, i);
          PortInRange(slots, j);
        }
    }
  }

  predicate AllDiffer(slots: seq<Slot>) {
    forall i, j :: 0 <= i < j < |slots| ==> PortOf(slots, i) != PortOf(slots, j)
  }

  // What the set of used ports and the counters say when a slot is reached: nobody has set this port,
  // and no counter has passed it
  predicate FreeBefore(slots: seq<Slot>, n: nat, port: int)
    requires n <= |slots|
  {
    port !in UsedBefore(slots, n) && forall key :: port < Base(key) || NextBefore(slots, n, key) <= port
  }

  lemma {:induction false} UsedBySlot(slots: seq<Slot>, n: nat, port: int) returns (i: nat)
    requires n <= |slots| && port in UsedBefore(slots, n)
    ensures i < n && PortOf(slots, i) == port
  {
    i := n - 1;
    if slots[i].configured != Some(port) {
      i := UsedBySlot(slots, n - 1, port);
    }
  }

  // A counter only passes ports that have been given out
  lemma {:induction false} PassedBySlot(slots: seq<Slot>, n: nat, key: PortKey, port: int) returns (i: nat)
    requires n <= |slots| && Base(key) <= port < NextBefore(slots, n, key)
    ensures i < n && PortOf(slots, i) == port
  {
    var k := n - 1;
    if port < NextBefore(slots, k, key) {
      i := PassedBySlot(slots, k, key, port);
    } else if port < PortOf(slots, k) {
      i := UsedBySlot(slots, k, port);
    } else {
      i := k;
    }
  }

  // Counters and used ports tell exactly which ports have been given out
  lemma GivenOutExact(slots: seq<Slot>, n: nat, port: int)
    requires n <= |slots|
    ensures FreeBefore(slots, n, port) <==> forall i :: 0 <= i < n ==> PortOf(slots, i) != port
  {
    if port in UsedBefore(slots, n) {
      var i := UsedBySlot(slots, n, port);
    }
    if key :| Base(key) <= port < NextBefore(slots, n, key) {
      var i := PassedBySlot(slots, n, key, port);
    }
    forall i | 0 <= i < n && PortOf(slots, i) == port
      ensures !FreeBefore(slots, n, port)
    {
      match slots[i].configured {
        case Some(_) =>
          UsedIs(slots, n, i);
        case None =>
          PortBound(slots, i);
          NextAfterPort(slots, i, n, slots[i].key);
      }
    }
  }

  // All ports differ exactly when every port set by the user passes the test that the code leaves out
  lemma PortsDistinctIff(slots: seq<Slot>)
    requires RangesApart(slots)
    ensures AllDiffer(slots)
            <==> forall j :: 0 <= j < |slots| && slots[j].configured.Some? ==>
                   FreeBefore(slots, j, slots[j].configured.value)
  {
    forall j | 0 <= j < |slots| && slots[j].configured.Some?
      ensures FreeBefore(slots, j, slots[j].configured.value)
              <==> forall i :: 0 <= i < j ==> PortOf(slots, i) != PortOf(slots, j)
    {
      GivenOutExact(slots, j, slots[j].configured.value);
    }
    forall i, j | 0 <= i < j < |slots| && slots[j].configured.None?
      ensures PortOf(slots, i) != PortOf(slots, j)
    {
      GeneratedDiffers(slots, i, j);
    }
  }

  // Where ports for a key can be generated
  predicate InRange(slots: seq<Slot>, key: PortKey, port: int) {
    Base(key) <= port < Limit(slots, key)
  }

  // What a user can see to: no port is set twice, and a port set after one was left open stays out of
  // the range of the open one.  Ports that are all set before any is left open meet this.
  predicate UserPortsApart(slots: seq<Slot>) {
    forall i, j :: 0 <= i < j < |slots| && slots[j].configured.Some? ==>
      match slots[i].configured
      case Some(port) => port != slots[j].configured.value
      case None => !InRange(slots, slots[i].key, slots[j].configured.value)
  }

  lemma PortsDistinct(slots: seq<Slot>)
    requires RangesApart(slots) && UserPortsApart(slots)
    ensures AllDiffer(slots)
  {
    forall i, j | 0 <= i < j < |slots|
      ensures PortOf(slots, i) != PortOf(slots, j)
    {
      if slots[j].configured.None? {
        GeneratedDiffers(slots, i, j);
      } else if slots[i].configured.None? {
        PortInRange(slots, i);
      }
    }
  }

  // ---------- when no port is set ----------

  predicate NothingSet(slots: seq<Slot>) {
    forall i :: 0 <= i < |slots| ==> slots[i].configured.None?
  }

  lemma {:induction false} NothingUsed(slots: seq<Slot>, n: nat)
    requires NothingSet(slots) && n <= |slots|
    ensures UsedBefore(slots, n) == {}
  {
    if n > 0 {
      NothingUsed(slots, n - 1);
    }
  }

  lemma {:induction false} CountersCount(slots: seq<Slot>, n: nat, key: PortKey)
    requires NothingSet(slots) && n <= |slots|
    ensures NextBefore(slots, n, key) == Base(key) + Generated(slots, n, key)
  {
    if n > 0 {
      CountersCount(slots, n - 1, key);
      NothingUsed(slots, n - 1);
    }
  }

  predicate AllOpen(controllers: seq<Controller>) {
    forall c :: c in controllers ==> c == Controller(None, None, None, None)
  }

  // Every key comes once for every controller
  lemma {:induction false} OnePerController(controllers: seq<Controller>, i: nat, key: PortKey)
    requires AllOpen(controllers) && i < |controllers|
    ensures |Slots(controllers)| == 4 * |controllers| && NothingSet(Slots(controllers))
    ensures Generated(Slots(controllers), 4 * i, key) == i
  {
    var slots := Slots(controllers);
    SlotsLength(controllers);
    forall j | 0 <= j < |slots| ensures slots[j].configured.None? {
      assert controllers[j / 4] in controllers;
      SlotsAt(controllers, j / 4);
    }
    if i > 0 {
      OnePerController(controllers, i - 1, key);
      SlotsAt(controllers, i - 1);
      assert controllers[i - 1] in controllers;
      var n := 4 * (i - 1);
      assert Generated(slots, n + 1, key) == Generated(slots, n, key) + if key == CtrlrPort then 1 else 0;
      assert Generated(slots, n + 2, key) == Generated(slots, n + 1, key) + if key == AggPort then 1 else 0;
      assert Generated(slots, n + 3, key) == Generated(slots, n + 2, key) + if key == AppPort then 1 else 0;
      assert Generated(slots, n + 4, key) == Generated(slots, n + 3, key) + if key == BtSeederPort then 1 else 0;
    }
  }

  // Without any port set, each kind counts up from its base, controller by controller
  lemma DefaultPorts(controllers: seq<Controller>, i: nat)
    requires AllOpen(controllers) && i < |controllers|
    ensures var slots := Slots(controllers);
            && |slots| == 4 * |controllers|
            && PortOf(slots, 4 * i) == 7007 + i && PortOf(slots, 4 * i + 1) == 8007 + i
            && PortOf(slots, 4 * i + 2) == 17077 + i && PortOf(slots, 4 * i + 3) == 6881 + i
  {
    var slots, n := Slots(controllers), 4 * i;
    SlotsAt(controllers, i);
    assert controllers[i] in controllers;
    DefaultPort(controllers, i, n, CtrlrPort);
    assert Generated(slots, n + 1, AggPort) == Generated(slots, n, AggPort);
    DefaultPort(controllers, i, n + 1, AggPort);
    assert Generated(slots, n + 2, AppPort) == Generated(slots, n + 1, AppPort) == Generated(slots, n, AppPort);
    DefaultPort(controllers, i, n + 2, AppPort);
    assert Generated(slots, n + 3, BtSeederPort) == Generated(slots, n + 2, BtSeederPort)
        == Generated(slots, n + 1, BtSeederPort) == Generated(slots, n, BtSeederPort);
    DefaultPort(controllers, i, n + 3, BtSeederPort);
  }

  lemma DefaultPort(controllers: seq<Controller>, i: nat, n: nat, key: PortKey)
    requires AllOpen(controllers) && i < |controllers| && 4 * i <= n < |Slots(controllers)|
    requires Slots(controllers)[n] == Slot(key, None)
    requires |Slots(controllers)| == 4 * |controllers|
    requires Generated(Slots(controllers), n, key) == Generated(Slots(controllers), 4 * i, key)
    ensures PortOf(Slots(controllers), n) == Base(key) + i
  {
    OnePerController(controllers, i, key);
    NothingUsed(Slots(controllers), n);
    CountersCount(Slots(controllers), n, key);
  }

  // A port that the user sets on a later controller is not looked out for
  lemma LateUserPortCollides()
    ensures var slots := Slots([Controller(None, None, None, None), Controller(Some(7007), None, None, None)]);
            |slots| == 8 && RangesApart(slots) && PortOf(slots, 0) == PortOf(slots, 4) == 7007
  {
    var first, second := Controller(None, None, None, None), Controller(Some(7007), None, None, None);
    var slots := Slots([first, second]);
    assert [first][..0] == [] && Slots([]) == [];
    assert Slots([first])
        == [Slot(CtrlrPort, None), Slot(AggPort, None), Slot(AppPort, None), Slot(BtSeederPort, None)];
    assert [first, second][..1] == [first];
    assert slots == [Slot(CtrlrPort, None), Slot(AggPort, None), Slot(AppPort, None), Slot(BtSeederPort, None),
                     Slot(CtrlrPort, Some(7007)), Slot(AggPort, None), Slot(AppPort, None), Slot(BtSeederPort, None)];
    UsedGrows(slots);
    GeneratedAtMost(slots, 8, BtSeederPort);
    GeneratedAtMost(slots, 8, CtrlrPort);
    GeneratedAtMost(slots, 8, AggPort);
  }

  lemma UsedGrows(slots: seq<Slot>)
    requires |slots| == 8 && slots[4].configured == Some(7007)
    requires forall i :: 0 <= i < 8 && i != 4 ==> slots[i].configured == None
    ensures UsedBefore(slots, 0) == UsedBefore(slots, 4) == {} && UsedBefore(slots, 8) == {7007}
  {
    assert UsedBefore(slots, 1) == {} && UsedBefore(slots, 2) == {} && UsedBefore(slots, 3) == {};
    assert UsedBefore(slots, 4) == {} && UsedBefore(slots, 5) == {7007};
    assert UsedBefore(slots, 6) == {7007} && UsedBefore(slots, 7) == {7007};
  }

  lemma {:induction false} GeneratedAtMost(slots: seq<Slot>, n: nat, key: PortKey)
    requires n <= |slots|
    ensures Generated(slots, n, key) <= n
  {
    if n > 0 {
      GeneratedAtMost(slots, n - 1, key);
    }
  }
}
