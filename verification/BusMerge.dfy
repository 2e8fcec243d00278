/**
 BusMergeMinimizer: buses of equal width are merged pair by pair, register file
 sockets that have become the same are deleted, and the long immediate template
 follows its bus.
 */
module BusMerge {
  import opened BitVectors
  import opened Sequences
  import opened PairSelection

  datatype Direction = Input | Output

  /** `unit` is the unit of the socket's first port, `isRF` whether that is a register
      file; `others` are the units of its further ports. */
  datatype Socket = Socket(name: nat, direction: Direction, unit: nat, others: set<nat>, isRF: bool, buses: set<nat>)
  {
    predicate Serves(u: nat) { u == unit || u in others }
  }

  datatype BusInfo = BusInfo(width: nat, immWidth: nat)

  /** Bus names in position order, what the buses are, the sockets in position
      order, and of every instruction template the buses of its slots in order. */
  datatype Net = Net(order: seq<nat>, info: map<nat, BusInfo>, sockets: seq<Socket>, templates: seq<seq<nat>>)
  {
    function Names(): set<nat> { set n | n in order }

    ghost predicate Valid()
    {
      && (forall i, j :: 0 <= i < j < |order| ==> order[i] != order[j])
      && info.Keys == Names()
      && (forall s :: s in sockets ==> s.buses <= Names())
      && (forall slots, b :: slots in templates && b in slots ==> b in order)
      && (forall s, t :: s in sockets && t in sockets && s.unit == t.unit ==> s.isRF == t.isRF)
    }

    /** The buses that the sockets of a unit reach in one direction. */
    ghost function Reach(unit: nat, direction: Direction): set<nat>
    {
      set s, b | s in sockets && s.Serves(unit) && s.direction == direction && b in s.buses :: b
    }

    /** The unit does not share a register file's socket as a further unit. */
    ghost predicate Leads(unit: nat)
    {
      forall s :: s in sockets && s.isRF ==> unit !in s.others
    }
  }

  /** findImmBuses: the first slot of the last template that has slots
      (IMM_SLOT_COUNT is 1). */
  function ImmBus(templates: seq<seq<nat>>): Option<nat>
  {
    if templates == [] then None
    else if templates[|templates| - 1] != [] then Some(templates[|templates| - 1][0])
    else ImmBus(templates[..|templates| - 1])
  }

  function RemoveSlot(slots: seq<nat>, bus: nat): seq<nat>
  {
    if slots == [] then []
    else (if slots[0] == bus then [] else [slots[0]]) + RemoveSlot(slots[1..], bus)
  }

  /** Bus::unsetMachine deletes the template slots that use the bus. */
  function RemoveSlots(templates: seq<seq<nat>>, bus: nat): seq<seq<nat>>
  {
    if templates == [] then []
    else RemoveSlots(templates[..|templates| - 1], bus) + [RemoveSlot(templates[|templates| - 1], bus)]
  }

  function Max(a: nat, b: nat): nat { if a < b then b else a }

  function Rename(a: nat, b: nat, x: nat): nat { if x == b then a else x }

  function RenameSet(a: nat, b: nat, s: set<nat>): set<nat> { if b in s then s - {b} + {a} else s }

  /** Bus `b` is gone and bus `a` has the larger immediate width of the two. */
  function MergedInfo(info: map<nat, BusInfo>, a: nat, b: nat): map<nat, BusInfo>
    requires a in info && b in info
  {
    info[a := info[a].(immWidth := Max(info[a].immWidth, info[b].immWidth))] - {b}
  }

  /** Merging the bus at position `j` into the bus at position `i`. */
  function Merged(net: Net, i: nat, j: nat): Net
    requires i < j < |net.order| && net.Valid()
  {
    var a, b := net.order[i], net.order[j];
    var imm := ImmBus(net.templates);
    assert a in net.Names() && b in net.Names();
    Net(Without(net.order, j), MergedInfo(net.info, a, b),
        seq(|net.sockets|, k requires 0 <= k < |net.sockets| =>
          net.sockets[k].(buses := RenameSet(a, b, net.sockets[k].buses))),
        if imm == Some(a) || imm == Some(b) then [[], [a]] else RemoveSlots(net.templates, b))
  }

  // --------------------------------------------------- register file clean-up

  /** The two sockets of a register file do the same. */
  predicate Same(s: Socket, t: Socket)
  {
    s.isRF && s.(name := t.name, others := t.others) == t
  }

  /** The sockets that have no equal register file socket before them. */
  function Dedup(sockets: seq<Socket>): seq<Socket>
  {
    if sockets == [] then []
    else
      var front, last := Dedup(sockets[..|sockets| - 1]), sockets[|sockets| - 1];
      if exists t :: t in front && Same(t, last) then front else front + [last]
  }

  lemma {:induction false} DedupKeepsOne(sockets: seq<Socket>, i: nat)
    requires i < |sockets|
    ensures sockets[i] in Dedup(sockets) || exists t :: t in Dedup(sockets) && Same(t, sockets[i])
  {
    if i < |sockets| - 1 {
      DedupKeepsOne(sockets[..|sockets| - 1], i);
    }
  }

  lemma {:induction false} DedupMembers(sockets: seq<Socket>)
    ensures forall t :: t in Dedup(sockets) ==> t in sockets
    ensures forall i, j :: 0 <= i < j < |Dedup(sockets)| ==> !Same(Dedup(sockets)[i], Dedup(sockets)[j])
  {
    if sockets != [] {
      DedupMembers(sockets[..|sockets| - 1]);
    }
  }

  /** The clean-up in the fields of the sockets: of the sockets of one register file
      and direction no two have the same buses; what is deleted is a register file's
      and has an earlier one with its unit, direction and buses; all others stay, in
      their order. */
  lemma {:induction false} CleanUpMeans(sockets: seq<Socket>)
    requires forall s, t :: s in sockets && t in sockets && s.unit == t.unit ==> s.isRF == t.isRF
    ensures var clean := Dedup(sockets);
            && Subsequence(clean, sockets)
            && (forall i, j :: 0 <= i < j < |clean| && clean[i].isRF && clean[i].direction == clean[j].direction && clean[i].unit == clean[j].unit ==>
                  clean[i].buses != clean[j].buses)
            && (forall s :: s in sockets && !s.isRF ==> s in clean)
            && forall s :: s in sockets && s !in clean ==>
                 s.isRF && exists t :: t in clean && t.direction == s.direction && t.unit == s.unit && t.buses == s.buses
  {
    DedupMembers(sockets);
    DedupOrder(sockets);
    forall s | s in sockets
      ensures !s.isRF ==> s in Dedup(sockets)
      ensures s !in Dedup(sockets) ==>
                s.isRF && exists t :: t in Dedup(sockets) && t.direction == s.direction && t.unit == s.unit && t.buses == s.buses
    {
      var i :| 0 <= i < |sockets| && sockets[i] == s;
      DedupKeepsOne(sockets, i);
    }
  }

  lemma {:induction false} DedupOrder(sockets: seq<Socket>)
    ensures Subsequence(Dedup(sockets), sockets)
  {
    if sockets != [] {
      DedupOrder(sockets[..|sockets| - 1]);
    }
  }

  /** Deleting a later duplicate changes nothing. */
  lemma {:induction false} DedupWithout(sockets: seq<Socket>, i: nat, j: nat)
    requires i < j < |sockets| && Same(sockets[i], sockets[j])
    ensures Dedup(Without(sockets, j)) == Dedup(sockets)
  {
    var front := sockets[..|sockets| - 1];
    if j == |sockets| - 1 {
      assert Without(sockets, j) == front;
      DedupKeepsOne(front, i);
    } else {
      DedupWithout(front, i, j);
      var less := Without(sockets, j);
      assert less[..|less| - 1] == Without(front, j);
    }
  }

  lemma {:induction false} DedupOfDistinct(sockets: seq<Socket>)
    requires forall i, j :: 0 <= i < j < |sockets| ==> !Same(sockets[i], sockets[j])
    ensures Dedup(sockets) == sockets
  {
    if sockets != [] {
      DedupOfDistinct(sockets[..|sockets| - 1]);
    }
  }

  /** The clean-up gives no unit a bus, and leaves every unit its reach that does not
      share a register file's socket as a further unit. */
  lemma DedupKeepsReach(net: Net, unit: nat, direction: Direction)
    ensures net.(sockets := Dedup(net.sockets)).Reach(unit, direction) <= net.Reach(unit, direction)
    ensures net.Leads(unit) ==>
              && net.(sockets := Dedup(net.sockets)).Leads(unit)
              && net.(sockets := Dedup(net.sockets)).Reach(unit, direction) == net.Reach(unit, direction)
  {
    DedupMembers(net.sockets);
    if net.Leads(unit) {
      forall b | b in net.Reach(unit, direction)
        ensures b in net.(sockets := Dedup(net.sockets)).Reach(unit, direction)
      {
        var s :| s in net.sockets && s.Serves(unit) && s.direction == direction && b in s.buses;
        var i :| 0 <= i < |net.sockets| && net.sockets[i] == s;
        DedupKeepsOne(net.sockets, i);
      }
    }
  }

  /** A further unit behind a duplicate socket loses the buses it has only there:
      the clean-up compares the first ports and deletes the whole socket. */
  lemma FurtherUnitLosesBuses(net: Net, kept: Socket, dropped: Socket, unit: nat)
    requires net.sockets == [kept, dropped] && Same(kept, dropped) && unit in dropped.others && !kept.Serves(unit)
    ensures net.Reach(unit, dropped.direction) == dropped.buses
    ensures net.(sockets := Dedup(net.sockets)).Reach(unit, dropped.direction) == {}
  {
    assert net.sockets[..1] == [kept] && [kept][..0] == [];
    assert Dedup([kept]) == [kept];
    assert dropped in net.sockets && !kept.Serves(unit);
  }

  // --------------------------------------------------------- what a run keeps

  /** The bus went to one that is left, of its own width and at least its immediate
      width. */
  ghost predicate Carried(before: map<nat, BusInfo>, after: map<nat, BusInfo>, fold: map<nat, nat>, n: nat)
  {
    && n in before && n in fold && fold[n] in after
    && after[fold[n]].width == before[n].width && before[n].immWidth <= after[fold[n]].immWidth
  }

  /** The bus that is left went to itself and has the immediate width of some bus
      that went to it. */
  ghost predicate StandsFor(before: map<nat, BusInfo>, after: map<nat, BusInfo>, fold: map<nat, nat>, m: nat)
  {
    m in after && m in before && m in fold && fold[m] == m && ComesFrom(before, fold, m, after[m].immWidth)
  }

  ghost predicate FoldsDown(before: map<nat, BusInfo>, after: map<nat, BusInfo>, fold: map<nat, nat>)
  {
    && fold.Keys == before.Keys
    && forall n {:trigger Carried(before, after, fold, n)} :: n in before ==> Carried(before, after, fold, n)
  }

  ghost predicate FoldsUp(before: map<nat, BusInfo>, after: map<nat, BusInfo>, fold: map<nat, nat>)
  {
    forall m {:trigger StandsFor(before, after, fold, m)} :: m in after ==> StandsFor(before, after, fold, m)
  }

  ghost predicate FoldsInfo(before: map<nat, BusInfo>, after: map<nat, BusInfo>, fold: map<nat, nat>)
  {
    FoldsDown(before, after, fold) && FoldsUp(before, after, fold)
  }

  /** Some bus folded into `m` had this immediate width. */
  ghost predicate ComesFrom(before: map<nat, BusInfo>, fold: map<nat, nat>, m: nat, immWidth: nat)
  {
    exists n :: n in fold && n in before && fold[n] == m && before[n].immWidth == immWidth
  }

  /** Every unit reaches the images of buses it reached, and all of them unless it
      shared a register file's socket as a further unit. */
  ghost predicate FoldsReach(before: Net, after: Net, fold: map<nat, nat>)
  {
    forall unit, direction :: ReachFolded(before, after, fold, unit, direction)
  }

  ghost predicate ReachFolded(before: Net, after: Net, fold: map<nat, nat>, unit: nat, direction: Direction)
  {
    && after.Reach(unit, direction) <= Image(fold, before.Reach(unit, direction))
    && (before.Leads(unit) ==> after.Leads(unit) && after.Reach(unit, direction) == Image(fold, before.Reach(unit, direction)))
  }

  /** The machine is the first one with its buses folded together. */
  ghost predicate Folds(before: Net, after: Net, fold: map<nat, nat>)
  {
    && FoldsInfo(before.info, after.info, fold) && FoldsReach(before, after, fold)
    && ImmBus(after.templates) == Follow(fold, ImmBus(before.templates))
  }

  ghost function Image(fold: map<nat, nat>, s: set<nat>): set<nat> { set n | n in s && n in fold :: fold[n] }

  function Follow(fold: map<nat, nat>, b: Option<nat>): Option<nat>
  {
    if b.Some? && b.value in fold then Some(fold[b.value]) else b
  }

  function Identity(net: Net): map<nat, nat> { map n | n in net.Names() :: n }

  /** One more merge on top of an earlier fold. */
  function Then(fold: map<nat, nat>, a: nat, b: nat): map<nat, nat>
  {
    map n | n in fold :: Rename(a, b, fold[n])
  }

  lemma {:induction false} ImmBusIsSlot(templates: seq<seq<nat>>)
    ensures ImmBus(templates).Some? ==> exists slots :: slots in templates && ImmBus(templates).value in slots
  {
    if templates != [] {
      ImmBusIsSlot(templates[..|templates| - 1]);
      assert templates[|templates| - 1] in templates;
    }
  }

  /** The bus that findImmBuses finds, if there is any slot: the first of the last
      template that has slots. */
  lemma {:induction false} ImmBusMeans(templates: seq<seq<nat>>)
    ensures ImmBus(templates).None? <==> forall slots :: slots in templates ==> slots == []
    ensures ImmBus(templates).Some? ==>
              exists k :: 0 <= k < |templates| && templates[k] != [] && templates[k][0] == ImmBus(templates).value &&
                          forall l :: k < l < |templates| ==> templates[l] == []
  {
    if templates != [] {
      var front, last := templates[..|templates| - 1], templates[|templates| - 1];
      assert templates == front + [last] && last in templates;
      ImmBusMeans(front);
      assert forall slots :: slots in templates <==> slots in front || slots == last;
    }
  }

  lemma {:induction false} RemoveSlotMembers(slots: seq<nat>, bus: nat)
    ensures forall x :: x in RemoveSlot(slots, bus) <==> x in slots && x != bus
    ensures slots != [] && slots[0] != bus ==> RemoveSlot(slots, bus) != [] && RemoveSlot(slots, bus)[0] == slots[0]
    ensures bus !in slots ==> RemoveSlot(slots, bus) == slots
  {
    if slots != [] {
      RemoveSlotMembers(slots[1..], bus);
      assert slots == [slots[0]] + slots[1..];
    }
  }

  /** The slots of every template are removed one by one. */
  lemma {:induction false} RemoveSlotsMembers(templates: seq<seq<nat>>, bus: nat)
    ensures |RemoveSlots(templates, bus)| == |templates|
    ensures forall k :: 0 <= k < |templates| ==> RemoveSlots(templates, bus)[k] == RemoveSlot(templates[k], bus)
  {
    if templates != [] {
      RemoveSlotsMembers(templates[..|templates| - 1], bus);
    }
  }

  /** The long immediate bus stays the same unless it is the one that goes. */
  lemma {:induction false} ImmBusStays(templates: seq<seq<nat>>, bus: nat)
    requires ImmBus(templates) != Some(bus)
    ensures ImmBus(RemoveSlots(templates, bus)) == ImmBus(templates)
  {
    if templates != [] {
      var front, last := templates[..|templates| - 1], templates[|templates| - 1];
      RemoveSlotMembers(last, bus);
      assert RemoveSlots(templates, bus) == RemoveSlots(front, bus) + [RemoveSlot(last, bus)];
      if last == [] {
        ImmBusStays(front, bus);
      }
    }
  }

  lemma WithoutMembers<T>(s: seq<T>, i: nat)
    requires i < |s| && forall j, k :: 0 <= j < k < |s| ==> s[j] != s[k]
    ensures forall x :: x in Without(s, i) <==> x in s && x != s[i]
    ensures forall j, k :: 0 <= j < k < |s| - 1 ==> Without(s, i)[j] != Without(s, i)[k]
  {
    forall x | x in s && x != s[i] ensures x in Without(s, i) {
      var k :| 0 <= k < |s| && s[k] == x;
      assert x == Without(s, i)[if k < i then k else k - 1];
    }
  }

  /** What a merge does to the templates: they are rebuilt when one of the two buses
      is the long immediate bus; otherwise a template loses a slot exactly when it
      has one on the removed bus, and keeps all others. */
  lemma MergedTemplates(net: Net, i: nat, j: nat)
    requires net.Valid() && i < j < |net.order|
    ensures var a, b, after := net.order[i], net.order[j], Merged(net, i, j).templates;
            if ImmBus(net.templates) in {Some(a), Some(b)} then after == [[], [a]]
            else
              && |after| == |net.templates|
              && forall k :: 0 <= k < |after| ==>
                   && (after[k] != net.templates[k] <==> b in net.templates[k])
                   && forall x :: x in after[k] <==> x in net.templates[k] && x != b
  {
    var b := net.order[j];
    RemoveSlotsMembers(net.templates, b);
    forall k | 0 <= k < |net.templates|
      ensures RemoveSlot(net.templates[k], b) != net.templates[k] <==> b in net.templates[k]
      ensures forall x :: x in RemoveSlot(net.templates[k], b) <==> x in net.templates[k] && x != b
    {
      RemoveSlotMembers(net.templates[k], b);
    }
  }

  /** The sockets are the same but for the removed bus. */
  lemma MergedSockets(net: Net, i: nat, j: nat)
    requires net.Valid() && i < j < |net.order| && Merged(net, i, j).Names() == net.Names() - {net.order[j]}
    ensures forall s :: s in Merged(net, i, j).sockets ==> s.buses <= Merged(net, i, j).Names()
    ensures forall s, t :: s in Merged(net, i, j).sockets && t in Merged(net, i, j).sockets && s.unit == t.unit ==> s.isRF == t.isRF
  {
    var next := Merged(net, i, j);
    forall s | s in next.sockets
      ensures s.buses <= next.Names()
      ensures exists t :: t in net.sockets && t.unit == s.unit && t.isRF == s.isRF
    {
      var k :| 0 <= k < |next.sockets| && next.sockets[k] == s;
      assert net.sockets[k] in net.sockets;
    }
  }

  /** After every merge exactly the removed bus is gone, and each socket and each
      template slot is on an existing bus. */
  lemma MergedIsValid(net: Net, i: nat, j: nat)
    requires net.Valid() && i < j < |net.order|
    ensures Merged(net, i, j).Names() == net.Names() - {net.order[j]}
    ensures Merged(net, i, j).Valid()
  {
    var next := Merged(net, i, j);
    WithoutMembers(net.order, j);
    assert net.order[i] in next.order;
    assert next.Names() == net.Names() - {net.order[j]};
    MergedSockets(net, i, j);
    MergedTemplates(net, i, j);
    forall slots, b | slots in next.templates && b in slots ensures b in next.order {
      var k :| 0 <= k < |next.templates| && next.templates[k] == slots;
      if next.templates != [[], [net.order[i]]] {
        assert net.templates[k] in net.templates;
      }
    }
  }

  /** The long immediate bus follows the merge. */
  lemma ImmBusFollows(net: Net, i: nat, j: nat)
    requires net.Valid() && i < j < |net.order|
    ensures var imm, imm' := ImmBus(net.templates), ImmBus(Merged(net, i, j).templates);
            if imm.Some? then imm' == Some(Rename(net.order[i], net.order[j], imm.value)) else imm' == None
  {
    if ImmBus(net.templates) !in {Some(net.order[i]), Some(net.order[j])} {
      ImmBusStays(net.templates, net.order[j]);
    }
    assert ImmBus([[], [net.order[i]]]) == Some(net.order[i]);
  }

  lemma MergedReach(net: Net, i: nat, j: nat, unit: nat, direction: Direction)
    requires net.Valid() && i < j < |net.order|
    ensures Merged(net, i, j).Reach(unit, direction)
         == RenameSet(net.order[i], net.order[j], net.Reach(unit, direction))
    ensures net.Leads(unit) ==> Merged(net, i, j).Leads(unit)
  {
    var next, a, b := Merged(net, i, j), net.order[i], net.order[j];
    forall x | x in RenameSet(a, b, net.Reach(unit, direction)) ensures x in next.Reach(unit, direction) {
      var y := if x in net.Reach(unit, direction) then x else b;
      var s :| s in net.sockets && s.Serves(unit) && s.direction == direction && y in s.buses;
      var k :| 0 <= k < |net.sockets| && net.sockets[k] == s;
      var t := next.sockets[k];
      assert t in next.sockets && t.Serves(unit) && t.direction == direction && x in t.buses;
    }
    forall x | x in next.Reach(unit, direction) ensures x in RenameSet(a, b, net.Reach(unit, direction)) {
      var s :| s in next.sockets && s.Serves(unit) && s.direction == direction && x in s.buses;
      var k :| 0 <= k < |next.sockets| && next.sockets[k] == s;
      var t := net.sockets[k];
      assert t in net.sockets && t.Serves(unit) && t.direction == direction && x in RenameSet(a, b, t.buses);
      assert forall y :: y in t.buses ==> y in net.Reach(unit, direction);
    }
    forall s | s in next.sockets && s.isRF && net.Leads(unit) ensures unit !in s.others {
      var k :| 0 <= k < |next.sockets| && next.sockets[k] == s;
      assert net.sockets[k] in net.sockets;
    }
  }

  lemma FoldsItself(net: Net)
    requires net.Valid()
    ensures Folds(net, net, Identity(net))
  {
    forall unit, direction ensures ReachFolded(net, net, Identity(net), unit, direction) {
      assert net.Reach(unit, direction) == Image(Identity(net), net.Reach(unit, direction));
    }
    ImmBusIsSlot(net.templates);
    forall m | m in net.info ensures ComesFrom(net.info, Identity(net), m, net.info[m].immWidth) {
      assert Identity(net)[m] == m;
    }
  }

  lemma ThenReach(before: Net, net: Net, fold: map<nat, nat>, i: nat, j: nat)
    requires net.Valid() && i < j < |net.order| && FoldsReach(before, net, fold)
    ensures FoldsReach(before, Merged(net, i, j), Then(fold, net.order[i], net.order[j]))
  {
    var a, b := net.order[i], net.order[j];
    forall unit, direction
      ensures ReachFolded(before, Merged(net, i, j), Then(fold, a, b), unit, direction)
    {
      assert ReachFolded(before, net, fold, unit, direction);
      MergedReach(net, i, j, unit, direction);
      RenameImage(fold, a, b, before.Reach(unit, direction));
    }
  }

  lemma RenameImage(fold: map<nat, nat>, a: nat, b: nat, s: set<nat>)
    requires a != b
    ensures RenameSet(a, b, Image(fold, s)) == Image(Then(fold, a, b), s)
  {
    var left, right := RenameSet(a, b, Image(fold, s)), Image(Then(fold, a, b), s);
    forall x | x in left ensures x in right {
      var y := if x in Image(fold, s) then x else b;
      var n :| n in s && n in fold && fold[n] == y;
      assert Then(fold, a, b)[n] == x;
    }
  }

  lemma MergeComesFrom(before: map<nat, BusInfo>, fold: map<nat, nat>, a: nat, b: nat, m: nat, m': nat, immWidth: nat)
    requires ComesFrom(before, fold, m', immWidth) && m == Rename(a, b, m')
    ensures ComesFrom(before, Then(fold, a, b), m, immWidth)
  {
    var n :| n in fold && n in before && fold[n] == m' && before[n].immWidth == immWidth;
    assert Then(fold, a, b)[n] == m;
  }

  lemma MergeFoldsDown(before: map<nat, BusInfo>, info: map<nat, BusInfo>, fold: map<nat, nat>, a: nat, b: nat)
    requires FoldsDown(before, info, fold) && a in info && b in info && a != b && info[a].width == info[b].width
    ensures FoldsDown(before, MergedInfo(info, a, b), Then(fold, a, b))
  {
    forall n | n in before ensures Carried(before, MergedInfo(info, a, b), Then(fold, a, b), n) {
      assert Carried(before, info, fold, n);
    }
  }

  lemma MergeFoldsUp(before: map<nat, BusInfo>, info: map<nat, BusInfo>, fold: map<nat, nat>, a: nat, b: nat)
    requires FoldsUp(before, info, fold) && a in info && b in info && a != b
    ensures FoldsUp(before, MergedInfo(info, a, b), Then(fold, a, b))
  {
    var next, then' := MergedInfo(info, a, b), Then(fold, a, b);
    forall m | m in next
      ensures StandsFor(before, next, then', m)
    {
      var m' := if m == a && info[b].immWidth > info[a].immWidth then b else m;
      assert StandsFor(before, info, fold, m) && StandsFor(before, info, fold, m');
      MergeComesFrom(before, fold, a, b, m, m', info[m'].immWidth);
    }
  }

  lemma CleanUpFolds(before: Net, net: Net, fold: map<nat, nat>)
    requires net.Valid() && Folds(before, net, fold)
    ensures var next := net.(sockets := Dedup(net.sockets));
            next.Valid() && Folds(before, next, fold)
  {
    var next := net.(sockets := Dedup(net.sockets));
    DedupMembers(net.sockets);
    assert next.Names() == net.Names();
    forall unit, direction ensures ReachFolded(before, next, fold, unit, direction) {
      assert ReachFolded(before, net, fold, unit, direction);
      DedupKeepsReach(net, unit, direction);
    }
  }

  lemma MergeFollows(imm: Option<nat>, fold: map<nat, nat>, a: nat, b: nat)
    requires imm.Some? ==> imm.value in fold
    ensures var now := Follow(fold, imm);
            Follow(Then(fold, a, b), imm) == if now.Some? then Some(Rename(a, b, now.value)) else None
  {
  }

  /** A merge of two buses of equal width folds further. */
  lemma MergeFolds(before: Net, net: Net, fold: map<nat, nat>, i: nat, j: nat)
    requires net.Valid() && i < j < |net.order|
    requires net.info[net.order[i]].width == net.info[net.order[j]].width && Folds(before, net, fold)
    requires ImmBus(before.templates).Some? ==> ImmBus(before.templates).value in fold
    ensures Merged(net, i, j).Valid()
    ensures Folds(before, Merged(net, i, j), Then(fold, net.order[i], net.order[j]))
  {
    var a, b := net.order[i], net.order[j];
    assert a in net.Names() && b in net.Names();
    MergedIsValid(net, i, j);
    ImmBusFollows(net, i, j);
    MergeFollows(ImmBus(before.templates), fold, a, b);
    ThenReach(before, net, fold, i, j);
    MergeFoldsInfo(before.info, net.info, fold, a, b);
  }

  lemma MergeFoldsInfo(before: map<nat, BusInfo>, info: map<nat, BusInfo>, fold: map<nat, nat>, a: nat, b: nat)
    requires FoldsInfo(before, info, fold) && a in info && b in info && a != b && info[a].width == info[b].width
    ensures FoldsInfo(before, MergedInfo(info, a, b), Then(fold, a, b))
  {
    MergeFoldsDown(before, info, fold, a, b);
    MergeFoldsUp(before, info, fold, a, b);
  }

  /** Units with a common bus still have one, when they do not share a register file's
      socket as further units. */
  lemma StaysConnected(before: Net, after: Net, fold: map<nat, nat>, source: nat, target: nat, bus: nat)
    requires Folds(before, after, fold) && before.Valid()
    requires before.Leads(source) && before.Leads(target)
    requires bus in before.Reach(source, Output) && bus in before.Reach(target, Input)
    ensures bus in fold && fold[bus] in after.Reach(source, Output) && fold[bus] in after.Reach(target, Input)
  {
    assert ReachFolded(before, after, fold, source, Output) && ReachFolded(before, after, fold, target, Input);
    assert bus in before.Names();
  }

  // ------------------------------------------------------------ the merge loop

  predicate Viable(net: Net, j: nat, k: nat)
    requires net.Valid()
  {
    j < k < |net.order| && net.info[net.order[j]].width == net.info[net.order[k]].width
  }

  /** Of the pairs of buses of one width this is the first with the smallest correlation. */
  ghost predicate BestPair(net: Net, corr: (nat, nat) -> real, i: nat, j: nat)
    requires net.Valid()
  {
    && i < j < |net.order| && net.info[net.order[i]].width == net.info[net.order[j]].width
    && forall k: nat, l: nat :: k < l < |net.order| && net.info[net.order[k]].width == net.info[net.order[l]].width ==>
         corr(i, j) <= corr(k, l) && (k < i || (k == i && l < j) ==> corr(i, j) < corr(k, l))
  }

  /** The pair is at least as good as (j, k): smaller, or equal and scanned first. */
  predicate Prefers(corr: (nat, nat) -> real, pair: (nat, nat), j: nat, k: nat)
  {
    var c := corr(pair.0, pair.1);
    c < corr(j, k) || (c == corr(j, k) && (pair.0 < j || (pair.0 == j && pair.1 <= k)))
  }

  /** The best of the pairs scanned before (row, column). */
  ghost predicate BestOf(net: Net, corr: (nat, nat) -> real, pair: Option<(nat, nat)>, row: nat, column: nat)
    requires net.Valid()
  {
    && (pair.Some? ==> Viable(net, pair.value.0, pair.value.1) && corr(pair.value.0, pair.value.1) < LIMIT)
    && (pair.Some? ==> pair.value.0 < row || (pair.value.0 == row && pair.value.1 < column))
    && forall j: nat, k: nat :: Viable(net, j, k) && (j < row || (j == row && k < column)) ==>
         if pair.Some? then Prefers(corr, pair.value, j, k) else corr(j, k) >= LIMIT
  }

  /** The first pair in scanning order with the smallest correlation. */
  method SelectPair(net: Net, corr: (nat, nat) -> real) returns (pair: Option<(nat, nat)>)
    requires net.Valid()
    ensures pair.None? ==> forall j: nat, k: nat :: Viable(net, j, k) ==> corr(j, k) >= LIMIT
    ensures pair.Some? ==> Viable(net, pair.value.0, pair.value.1) && corr(pair.value.0, pair.value.1) < LIMIT
    ensures pair.Some? ==> BestPair(net, corr, pair.value.0, pair.value.1)
  {
    var minCorr := LIMIT;
    pair := None;
    var imm := ImmBus(net.templates);
    for j := 0 to |net.order|
      invariant BestOf(net, corr, pair, j, 0)
      invariant minCorr == if pair.Some? then corr(pair.value.0, pair.value.1) else LIMIT
    {
      for k := j + 1 to |net.order|
        invariant BestOf(net, corr, pair, j, k)
        invariant minCorr == if pair.Some? then corr(pair.value.0, pair.value.1) else LIMIT
      {
        if net.info[net.order[j]].width != net.info[net.order[k]].width {
          continue;
        }
        if imm == Some(net.order[j]) && imm == Some(net.order[k]) {
          continue;
        }
        if corr(j, k) < minCorr {
          minCorr := corr(j, k);
          pair := Some((j, k));
        }
      }
    }
  }

  /** The selection finds a pair. */
  ghost predicate HasPair(net: Net, corr: (nat, nat) -> real)
    requires net.Valid()
  {
    exists j: nat, k: nat :: Viable(net, j, k) && corr(j, k) < LIMIT
  }

  /** A recorded configuration: the first machine folded, and no two sockets of a
      register file and direction with the same buses. */
  ghost predicate Recorded(before: Net, c: Net, fold: map<nat, nat>)
  {
    && c.Valid() && Folds(before, c, fold)
    && forall i, j :: (0 <= i < j < |c.sockets| && c.sockets[i].isRF && c.sockets[i].direction == c.sockets[j].direction
                       && c.sockets[i].unit == c.sockets[j].unit) ==>
                      c.sockets[i].buses != c.sockets[j].buses
  }

  /** A round: the second bus of the best pair goes into the first. */
  ghost predicate IsRound(net: Net, corr: (nat, nat) -> real, fold: map<nat, nat>, c: Net, next: map<nat, nat>)
    requires net.Valid()
  {
    exists i, j :: BestPair(net, corr, i, j) && GoesInto(net, fold, i, j, c, next)
  }

  ghost predicate GoesInto(net: Net, fold: map<nat, nat>, i: nat, j: nat, c: Net, next: map<nat, nat>)
  {
    && i < j < |net.order| && c.order == net.order[..j] + net.order[j + 1..] && next.Keys == fold.Keys
    && forall n :: n in fold ==> next[n] == if fold[n] == net.order[j] then net.order[i] else fold[n]
  }

  /** The machine recorded last. */
  function Newest(before: Net, configs: seq<Net>): Net
  {
    if configs == [] then before else configs[|configs| - 1]
  }

  function NewestFold(before: Net, folds: seq<map<nat, nat>>): map<nat, nat>
  {
    if folds == [] then Identity(before) else folds[|folds| - 1]
  }

  /** Every configuration is a round after the one before, by the correlations measured
      then. */
  ghost predicate AllRecorded(before: Net, corr: nat -> (nat, nat) -> real, configs: seq<Net>, folds: seq<map<nat, nat>>)
    decreases |configs|
  {
    && |folds| == |configs| && before.Valid()
    && (configs == [] ||
        var n := |configs| - 1;
        && AllRecorded(before, corr, configs[..n], folds[..n])
        && Newest(before, configs[..n]).Valid()
        && Recorded(before, configs[n], folds[n])
        && IsRound(Newest(before, configs[..n]), corr(n), NewestFold(before, folds[..n]), configs[n], folds[n]))
  }

  lemma OneMoreRecorded(before: Net, corr: nat -> (nat, nat) -> real, configs: seq<Net>, folds: seq<map<nat, nat>>, c: Net, fold: map<nat, nat>)
    requires AllRecorded(before, corr, configs, folds) && Recorded(before, c, fold) && Newest(before, configs).Valid()
    requires IsRound(Newest(before, configs), corr(|configs|), NewestFold(before, folds), c, fold)
    ensures AllRecorded(before, corr, configs + [c], folds + [fold])
  {
    assert (configs + [c])[..|configs|] == configs && (folds + [fold])[..|configs|] == folds;
  }

  /** The state of the merge loop. */
  ghost predicate Sound(before: Net, net: Net, fold: map<nat, nat>)
  {
    && before.Valid() && net.Valid() && Folds(before, net, fold)
    && (ImmBus(before.templates).Some? ==> ImmBus(before.templates).value in fold)
    && ImmBus(net.templates).None? == ImmBus(before.templates).None?
  }

  lemma SoundAtFirst(net: Net)
    requires net.Valid()
    ensures Sound(net, net, Identity(net))
  {
    FoldsItself(net);
    ImmBusIsSlot(net.templates);
  }

  lemma StaysSound(before: Net, net: Net, fold: map<nat, nat>, i: nat, j: nat)
    requires Sound(before, net, fold) && Viable(net, i, j)
    ensures var merged := Merged(net, i, j);
            var clean := merged.(sockets := Dedup(merged.sockets));
            && Sound(before, clean, Then(fold, net.order[i], net.order[j]))
            && Recorded(before, clean, Then(fold, net.order[i], net.order[j])) && |clean.order| == |net.order| - 1
            && GoesInto(net, fold, i, j, clean, Then(fold, net.order[i], net.order[j]))
  {
    var fold' := Then(fold, net.order[i], net.order[j]);
    var merged := Merged(net, i, j);
    var clean := merged.(sockets := Dedup(merged.sockets));
    MergeFolds(before, net, fold, i, j);
    CleanUpFolds(before, merged, fold');
    CleanUpMeans(merged.sockets);
    BestGoesInto(net, fold, i, j, clean);
  }

  lemma BestGoesInto(net: Net, fold: map<nat, nat>, i: nat, j: nat, clean: Net)
    requires i < j < |net.order| && clean.order == Without(net.order, j)
    ensures GoesInto(net, fold, i, j, clean, Then(fold, net.order[i], net.order[j]))
  {
  }

  lemma ExactCount(before: Net, after: Net, fold: map<nat, nat>, corr: nat -> (nat, nat) -> real, round: nat)
    requires before.Valid() && after.Valid() && Folds(before, after, fold)
    requires forall j: nat, k: nat :: Viable(after, j, k) ==> corr(round)(j, k) >= LIMIT
    ensures Measurable(corr) ==> |after.order| == |Widths(before.info, before.Names())|
  {
    if Measurable(corr) {
      OneBusPerWidth(before, after, fold);
    }
  }

  datatype Outcome = Configurations(configs: seq<Net>) | Thrown

  class Minimizer {
    var net: Net

    constructor (net: Net)
      ensures this.net == net
    {
      this.net := net;
    }

    /** Deletes, in place, every register file socket that equals an earlier one. */
    method CleanUp()
      modifies this
      ensures net == old(net).(sockets := Dedup(old(net.sockets)))
    {
      var sockets := net.sockets;
      ghost var goal := Dedup(sockets);
      var i := 0;
      while i < |sockets|
        invariant i <= |sockets| && Dedup(sockets) == goal && net == old(net)
        invariant forall k, l :: 0 <= k < i && k < l < |sockets| ==> !Same(sockets[k], sockets[l])
        decreases |sockets| - i
      {
        var j := i + 1;
        ghost var count := |sockets|;
        while j < |sockets|
          invariant i < j <= |sockets| <= count && Dedup(sockets) == goal && net == old(net)
          invariant forall k, l :: 0 <= k < i && k < l < |sockets| ==> !Same(sockets[k], sockets[l])
          invariant forall l :: i < l < j ==> !Same(sockets[i], sockets[l])
          decreases |sockets| - j
        {
          if Same(sockets[i], sockets[j]) {
            DedupWithout(sockets, i, j);
            sockets := Without(sockets, j);
          } else {
            j := j + 1;
          }
        }
        i := i + 1;
      }
      DedupOfDistinct(sockets);
      net := net.(sockets := sockets);
    }

    /** Takes the slots on a bus out of all templates. */
    method DeleteSlots(templates: seq<seq<nat>>, bus: nat) returns (left: seq<seq<nat>>)
      ensures left == RemoveSlots(templates, bus)
    {
      left := [];
      for k := 0 to |templates|
        invariant left == RemoveSlots(templates[..k], bus)
      {
        assert templates[..k + 1][..k] == templates[..k];
        left := left + [RemoveSlot(templates[k], bus)];
      }
      assert templates[..|templates|] == templates;
    }

    /** Attaches the sockets of bus `j` to bus `i`, takes over the larger
        immediate width, removes bus `j` and rebuilds the templates when one of
        the two carried the long immediate slot. */
    method MergeBuses(i: nat, j: nat)
      requires net.Valid() && i < j < |net.order|
      modifies this
      ensures net == Merged(old(net), i, j)
    {
      var busA, busB := net.order[i], net.order[j];
      assert busA in net.Names() && busB in net.Names();
      var imm := ImmBus(net.templates);
      var sockets := net.sockets;
      for k := 0 to |sockets|
        invariant |sockets| == |net.sockets|
        invariant forall l :: 0 <= l < k ==>
                    sockets[l] == net.sockets[l].(buses := RenameSet(busA, busB, net.sockets[l].buses))
        invariant forall l :: k <= l < |sockets| ==> sockets[l] == net.sockets[l]
      {
        var buses := sockets[k].buses;
        if busB in buses {
          if busA !in buses {
            buses := buses + {busA};
          }
          buses := buses - {busB};
        }
        sockets := sockets[k := sockets[k].(buses := buses)];
      }
      var maxImm := Max(net.info[busA].immWidth, net.info[busB].immWidth);
      var info := net.info[busA := net.info[busA].(immWidth := maxImm)] - {busB};
      var templates := DeleteSlots(net.templates, busB);
      if imm == Some(busA) || imm == Some(busB) {
        templates := [[], [busA]];
      }
      net := Net(Without(net.order, j), info, sockets, templates);
    }

    /** One round: merges the best pair and cleans up. */
    method MergePair(i: nat, j: nat, ghost before: Net, ghost corr: nat -> (nat, nat) -> real, ghost fold: map<nat, nat>,
                     ghost configs: seq<Net>, ghost folds: seq<map<nat, nat>>) returns (ghost next: map<nat, nat>)
      requires State(before, corr, net, fold, configs, folds) && BestPair(net, corr(|configs|), i, j) && ImmBus(net.templates).Some?
      modifies this
      ensures State(before, corr, net, next, configs + [net], folds + [next]) && |net.order| == |old(net).order| - 1
    {
      ghost var was := net;
      StaysSound(before, net, fold, i, j);
      next := Then(fold, net.order[i], net.order[j]);
      MergeBuses(i, j);
      CleanUp();
      assert IsRound(was, corr(|configs|), fold, net, next);
      OneMoreRecorded(before, corr, configs, folds, net, next);
    }

    /**
     The merge loop, for any correlations measured in each round. The first
     merge throws exactly when there is one to make and no long immediate
     template. One configuration is recorded for every merge; each is the first
     machine folded, without duplicate sockets. With correlations below the limit
     there are as many as buses beyond one for each width.
     */
    method Explore(corr: nat -> (nat, nat) -> real) returns (result: Outcome, ghost fold: map<nat, nat>, ghost folds: seq<map<nat, nat>>)
      requires net.Valid()
      modifies this
      ensures net.Valid() && Folds(old(net), net, fold)
      ensures result.Thrown? <==> (forall slots :: slots in old(net).templates ==> slots == []) && HasPair(old(net), corr(0))
      ensures result.Thrown? ==> net == old(net)
      ensures result.Configurations? ==> |result.configs| + |net.order| == |old(net).order|
      ensures result.Configurations? ==> AllRecorded(old(net), corr, result.configs, folds)
      ensures result.Configurations? ==> net == Newest(old(net), result.configs)
      ensures result.Configurations? && Measurable(corr) ==>
                |result.configs| == |old(net).order| - |Widths(old(net).info, old(net).Names())|
      ensures result.Configurations? ==>
                forall j: nat, k: nat :: Viable(net, j, k) ==> corr(|result.configs|)(j, k) >= LIMIT
    {
      ImmBusMeans(net.templates);
      SoundAtFirst(net);
      result, fold, folds := MergeAll(corr, net);
    }

    /** The loop itself. */
    method MergeAll(corr: nat -> (nat, nat) -> real, ghost before: Net)
      returns (result: Outcome, ghost fold: map<nat, nat>, ghost folds: seq<map<nat, nat>>)
      requires before == net && State(before, corr, net, Identity(net), [], [])
      modifies this
      ensures Ended(before, corr, net, result, fold, folds)
    {
      var configs: seq<Net> := [];
      fold, folds := Identity(net), [];
      while |net.order| > 1
        invariant State(before, corr, net, fold, configs, folds)
        decreases |net.order|
      {
        var pair := SelectPair(net, corr(|configs|));
        if pair.None? {
          EndsWithoutPair(before, corr, net, fold, configs, folds);
          return Configurations(configs), fold, folds;
        }
        if ImmBus(net.templates).None? {
          EndsThrown(before, corr, net, fold, configs, folds, pair.value.0, pair.value.1);
          return Thrown, fold, folds;
        }
        fold := MergePair(pair.value.0, pair.value.1, before, corr, fold, configs, folds);
        folds := folds + [fold];
        configs := configs + [net];
      }
      EndsWithoutPair(before, corr, net, fold, configs, folds);
      return Configurations(configs), fold, folds;
    }
  }

  ghost predicate State(before: Net, corr: nat -> (nat, nat) -> real, net: Net, fold: map<nat, nat>, configs: seq<Net>, folds: seq<map<nat, nat>>)
  {
    && Sound(before, net, fold) && AllRecorded(before, corr, configs, folds)
    && net == Newest(before, configs) && fold == NewestFold(before, folds)
    && |configs| + |net.order| == |before.order| && (configs != [] ==> ImmBus(before.templates).Some?)
  }

  /** What is promised of the outcome. */
  ghost predicate Ended(before: Net, corr: nat -> (nat, nat) -> real, net: Net, result: Outcome, fold: map<nat, nat>, folds: seq<map<nat, nat>>)
  {
    && before.Valid() && net.Valid() && Folds(before, net, fold)
    && (result.Thrown? <==> ImmBus(before.templates).None? && HasPair(before, corr(0)))
    && (result.Thrown? ==> net == before)
    && (result.Configurations? ==>
          && |result.configs| + |net.order| == |before.order|
          && AllRecorded(before, corr, result.configs, folds) && net == Newest(before, result.configs)
          && (Measurable(corr) ==> |result.configs| == |before.order| - |Widths(before.info, before.Names())|)
          && forall j: nat, k: nat :: Viable(net, j, k) ==> corr(|result.configs|)(j, k) >= LIMIT)
  }

  lemma EndsWithoutPair(before: Net, corr: nat -> (nat, nat) -> real, net: Net, fold: map<nat, nat>, configs: seq<Net>, folds: seq<map<nat, nat>>)
    requires State(before, corr, net, fold, configs, folds)
    requires forall j: nat, k: nat :: Viable(net, j, k) ==> corr(|configs|)(j, k) >= LIMIT
    ensures Ended(before, corr, net, Configurations(configs), fold, folds)
  {
    ExactCount(before, net, fold, corr, |configs|);
  }

  lemma EndsThrown(before: Net, corr: nat -> (nat, nat) -> real, net: Net, fold: map<nat, nat>, configs: seq<Net>, folds: seq<map<nat, nat>>,
                   i: nat, j: nat)
    requires State(before, corr, net, fold, configs, folds) && ImmBus(net.templates).None?
    requires BestPair(net, corr(|configs|), i, j) && corr(|configs|)(i, j) < LIMIT
    ensures Ended(before, corr, net, Thrown, fold, folds)
  {
    assert Viable(net, i, j);
  }

  // --------------------------------------------------------- one bus per width

  ghost function Widths(info: map<nat, BusInfo>, names: set<nat>): set<nat>
    requires names <= info.Keys
  {
    set n | n in names :: info[n].width
  }

  lemma {:induction false} DistinctWidths(info: map<nat, BusInfo>, order: seq<nat>)
    requires forall n :: n in order ==> n in info
    requires forall j, k :: 0 <= j < k < |order| ==> info[order[j]].width != info[order[k]].width
    ensures |Widths(info, set n | n in order)| == |order|
  {
    if order != [] {
      var front, last := order[..|order| - 1], order[|order| - 1];
      DistinctWidths(info, front);
      var widths := Widths(info, set n | n in front);
      assert info[last].width !in widths;
      assert order == front + [last];
      assert Widths(info, set n | n in order) == widths + {info[last].width};
    }
  }

  lemma FoldsKeepWidths(before: map<nat, BusInfo>, after: map<nat, BusInfo>, fold: map<nat, nat>)
    requires FoldsInfo(before, after, fold)
    ensures Widths(after, after.Keys) == Widths(before, before.Keys)
  {
    forall w | w in Widths(before, before.Keys) ensures w in Widths(after, after.Keys) {
      var n :| n in before && before[n].width == w;
      assert Carried(before, after, fold, n);
    }
    forall w | w in Widths(after, after.Keys) ensures w in Widths(before, before.Keys) {
      var m :| m in after && after[m].width == w;
      assert StandsFor(before, after, fold, m) && Carried(before, after, fold, m);
    }
  }

  /** When the loop has no viable pair left there is exactly one bus for each
      width of the machine it started from. */
  lemma OneBusPerWidth(before: Net, after: Net, fold: map<nat, nat>)
    requires before.Valid() && after.Valid() && Folds(before, after, fold)
    requires forall j: nat, k: nat :: !Viable(after, j, k)
    ensures Widths(after.info, after.Names()) == Widths(before.info, before.Names())
    ensures |after.order| == |Widths(before.info, before.Names())|
  {
    forall j, k | 0 <= j < k < |after.order|
      ensures after.info[after.order[j]].width != after.info[after.order[k]].width
    {
      assert !Viable(after, j, k);
    }
    assert forall n :: n in after.order ==> n in after.Names();
    DistinctWidths(after.info, after.order);
    FoldsKeepWidths(before.info, after.info, fold);
  }
}
