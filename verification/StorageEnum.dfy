/** Storage enumeration of api/api_storage.c, driven by API_dev_enum of api/api.c. */
module StorageEnum {

  const ENUM_MAX: nat := 5

  /** What blk_get_dev finds at one index of a group: nothing, a device of unknown type, or a usable one. */
  datatype Slot = Absent | Inactive | Active

  /** A storage group; a group that is not configured has no name and no slots. */
  datatype Group = Group(configured: bool, slots: seq<Slot>)

  /** The five groups in order, and whether there is a network device. */
  datatype World = World(groups: seq<Group>, net: bool)

  ghost predicate ValidWorld(w: World) {
    |w.groups| == ENUM_MAX && forall g | 0 <= g < ENUM_MAX :: !w.groups[g].configured ==> w.groups[g].slots == []
  }

  /** A device pointer; blk_get_dev gives every slot a pointer of its own. */
  datatype Cookie = Null | Net | Dev(g: nat, i: nat)

  datatype State = State(started: seq<bool>, ended: seq<bool>, cookie: Cookie)

  ghost predicate ValidState(w: World, s: State) {
    && |s.started| == ENUM_MAX && |s.ended| == ENUM_MAX
    && (s.cookie.Dev? ==>
          && s.cookie.g < |w.groups| && s.cookie.i < |w.groups[s.cookie.g].slots|
          && w.groups[s.cookie.g].slots[s.cookie.i] != Absent)
  }

  datatype Result = Result(s: State, found: bool)

  /** The first occupied slot from `i` on, or the number of slots. */
  function NextSlot(slots: seq<Slot>, i: nat): (j: nat)
    requires i <= |slots|
    ensures i <= j <= |slots| && (j < |slots| ==> slots[j] != Absent)
    ensures forall k | i <= k < j :: slots[k] == Absent
    decreases |slots| - i
  {
    if i == |slots| || slots[i] != Absent then i else NextSlot(slots, i + 1)
  }

  /** Where dev_stor_get resumes: behind the cookie if it belongs to the group, else at the start. */
  function Resume(s: State, g: nat): nat {
    if s.cookie.Dev? && s.cookie.g == g then s.cookie.i + 1 else 0
  }

  /** dev_stor_get: the cookie moves to the next occupied slot, usable or not, and is cleared if there is none. */
  function StorGet(w: World, s: State, g: nat): (State, bool, bool)
    requires g < |w.groups|
  {
    var group := w.groups[g];
    if !group.configured || Resume(s, g) > |group.slots| then (s, false, false)
    else
      var j := NextSlot(group.slots, Resume(s, g));
      if j < |group.slots| then (s.(cookie := Dev(g, j)), group.slots[j] == Active, true)
      else (s.(cookie := Null), false, false)
  }

  function EnumStor(w: World, s: State, g: nat): Result
    requires g < |w.groups| && |s.started| == ENUM_MAX && |s.ended| == ENUM_MAX && g < ENUM_MAX
  {
    var inGroup := s.cookie.Dev? && s.cookie.g == g;
    if s.cookie.Null? then
      var (t, found, more) := StorGet(w, s, g);
      Result(t.(started := t.started[g := true], ended := t.ended[g := !more]), found)
    else if s.ended[g] then Result(s, false)
    else if inGroup then
      var (t, found, more) := StorGet(w, s, g);
      Result(t.(ended := t.ended[g := !more]), found)
    else if !s.started[g] then
      var (t, found, more) := StorGet(w, s.(started := s.started[g := true]), g);
      Result(t.(ended := t.ended[g := !more]), found)
    else Result(s.(ended := s.ended[g := true]), false)
  }

  function EnumStorage(w: World, s: State, g: nat): Result
    requires |w.groups| == ENUM_MAX && |s.started| == ENUM_MAX && |s.ended| == ENUM_MAX && g <= ENUM_MAX
    decreases ENUM_MAX - g
  {
    if g == ENUM_MAX then Result(s, false)
    else
      var r := EnumStor(w, s, g);
      if r.found then r else EnumStorage(w, r.s, g + 1)
  }

  const CLEAR: seq<bool> := [false, false, false, false, false]

  /** API_dev_enum: a null cookie starts over, with the network device first. */
  function DevEnum(w: World, s: State): State
    requires |w.groups| == ENUM_MAX && |s.started| == ENUM_MAX && |s.ended| == ENUM_MAX
  {
    var s1 := if s.cookie.Null? then State(CLEAR, CLEAR, Null) else s;
    if s.cookie.Null? && w.net then s1.(cookie := Net)
    else
      var r := EnumStorage(w, s1, 0);
      if r.found then r.s else r.s.(cookie := Null)
  }

  // ---- what a run returns

  /** The devices from slot `i` of group `g` on; an inactive device hides the rest of its group. */
  function ListedFrom(w: World, g: nat, i: nat): seq<Cookie>
    requires |w.groups| == ENUM_MAX && g <= ENUM_MAX
    decreases ENUM_MAX - g, if g < ENUM_MAX && i < |w.groups[g].slots| then |w.groups[g].slots| - i else 0
  {
    if g == ENUM_MAX then []
    else if i >= |w.groups[g].slots| || w.groups[g].slots[i] == Inactive then ListedFrom(w, g + 1, 0)
    else if w.groups[g].slots[i] == Active then [Dev(g, i)] + ListedFrom(w, g, i + 1)
    else ListedFrom(w, g, i + 1)
  }

  /** Everything one enumeration returns, in order. */
  function Listing(w: World): seq<Cookie>
    requires |w.groups| == ENUM_MAX
  {
    (if w.net then [Net] else []) + ListedFrom(w, 0, 0)
  }

  lemma {:induction false} SkipAbsent(w: World, g: nat, i: nat)
    requires |w.groups| == ENUM_MAX && g < ENUM_MAX && i <= |w.groups[g].slots|
    ensures ListedFrom(w, g, i) == ListedFrom(w, g, NextSlot(w.groups[g].slots, i))
    decreases |w.groups[g].slots| - i
  {
    if i < |w.groups[g].slots| && w.groups[g].slots[i] == Absent { SkipAbsent(w, g, i + 1); }
  }

  /** The groups before `g` are done with; those from `g` on are untouched. */
  ghost predicate Fresh(s: State, g: nat)
    requires |s.started| == ENUM_MAX && |s.ended| == ENUM_MAX
  {
    && (forall h | 0 <= h < g && h < ENUM_MAX :: s.started[h])
    && (forall h | g <= h < ENUM_MAX :: !s.started[h] && !s.ended[h])
  }

  /** The cookie is a device just returned. */
  ghost predicate AtDevice(w: World, s: State)
    requires |s.started| == ENUM_MAX && |s.ended| == ENUM_MAX
  {
    && s.cookie.Dev? && s.cookie.g < ENUM_MAX && s.started[s.cookie.g] && !s.ended[s.cookie.g]
    && (forall h | 0 <= h < s.cookie.g :: s.started[h])
    && (forall h | s.cookie.g < h < ENUM_MAX :: !s.started[h] && !s.ended[h])
  }

  /** The call delivered the head of `list`, or nothing if it is empty. */
  ghost predicate Delivers(w: World, r: Result, list: seq<Cookie>) {
    && ValidState(w, r.s)
    && r.found == (list != [])
    && (list != [] ==> AtDevice(w, r.s) && r.s.cookie == list[0] && list[1..] == ListedFrom'(w, r.s.cookie))
  }

  ghost function ListedFrom'(w: World, c: Cookie): seq<Cookie> {
    if c.Dev? && |w.groups| == ENUM_MAX && c.g < ENUM_MAX then ListedFrom(w, c.g, c.i + 1) else []
  }

  /** Group `g` is about to be entered, from behind the cookie or from its start. */
  ghost predicate Entering(w: World, s: State, g: nat)
    requires |s.started| == ENUM_MAX && |s.ended| == ENUM_MAX
  {
    && ValidState(w, s)
    && (s.cookie.Dev? ==> s.cookie.g <= g)
    && (if s.cookie.Dev? && s.cookie.g == g then AtDevice(w, s) else Fresh(s, g))
  }

  /** Entering a group finds its next active device, or leaves the group for good. */
  lemma EnterGroup(w: World, s: State, g: nat)
    requires ValidWorld(w) && g < ENUM_MAX && |s.started| == ENUM_MAX && |s.ended| == ENUM_MAX && Entering(w, s, g)
    ensures Resume(s, g) <= |w.groups[g].slots|
    ensures var slots := w.groups[g].slots;
            var j, r := NextSlot(slots, Resume(s, g)), EnumStor(w, s, g);
            && r.found == (j < |slots| && slots[j] == Active)
            && (r.found ==> ValidState(w, r.s) && AtDevice(w, r.s) && r.s.cookie == Dev(g, j))
            && (!r.found ==> && |r.s.started| == ENUM_MAX && |r.s.ended| == ENUM_MAX
                             && Entering(w, r.s, g + 1) && Resume(r.s, g + 1) == 0)
  {
    hide NextSlot, EnumStor;
    EnterStep(w, s, g);
  }

  lemma EnterStep(w: World, s: State, g: nat)
    requires ValidWorld(w) && g < ENUM_MAX && |s.started| == ENUM_MAX && |s.ended| == ENUM_MAX && Entering(w, s, g)
    ensures var (t, found, more) := StorGet(w, s, g);
            EnumStor(w, s, g) == Result(State(s.started[g := true], s.ended[g := !more], t.cookie), found)
  {
    hide NextSlot, ValidWorld, ValidState;
    var started := s.started[g := true];
    if s.cookie.Dev? && s.cookie.g == g { assert started == s.started; }
  }

  /** From any group on: the rest of the call walks the listing. */
  lemma {:induction false} WalkFrom(w: World, s: State, g: nat)
    requires ValidWorld(w) && g <= ENUM_MAX && |s.started| == ENUM_MAX && |s.ended| == ENUM_MAX && Entering(w, s, g)
    ensures Delivers(w, EnumStorage(w, s, g), ListedFrom(w, g, Resume(s, g)))
    decreases ENUM_MAX - g
  {
    hide EnumStor, NextSlot, AtDevice;
    if g < ENUM_MAX {
      EnterGroup(w, s, g);
      SkipAbsent(w, g, Resume(s, g));
      var r := EnumStor(w, s, g);
      if !r.found {
        WalkFrom(w, r.s, g + 1);
      }
    }
  }

  /** Groups that are done with are passed over. */
  lemma {:induction false} PassOver(w: World, s: State, h: nat)
    requires ValidWorld(w) && ValidState(w, s) && AtDevice(w, s) && h <= s.cookie.g
    ensures Delivers(w, EnumStorage(w, s, h), ListedFrom(w, s.cookie.g, s.cookie.i + 1))
    decreases ENUM_MAX - h
  {
    hide StorGet, ListedFrom;
    if h == s.cookie.g {
      WalkFrom(w, s, h);
    } else {
      var r := EnumStor(w, s, h);
      assert r.s == s || r.s == s.(ended := s.ended[h := true]);
      PassOver(w, r.s, h + 1);
    }
  }

  /** What is still to come behind a cookie. */
  ghost function Remaining(w: World, c: Cookie): seq<Cookie> {
    if |w.groups| != ENUM_MAX then [] else if c.Net? then ListedFrom(w, 0, 0) else ListedFrom'(w, c)
  }

  /** In the middle of an enumeration: `rest` begins with the device just returned, and is empty at the end. */
  ghost predicate OnTrack(w: World, s: State, rest: seq<Cookie>) {
    && ValidState(w, s) && (s.cookie.Dev? ==> AtDevice(w, s)) && (s.cookie.Net? ==> s.started == CLEAR == s.ended)
    && (s.cookie.Null? <==> rest == [])
    && (rest != [] ==> s.cookie == rest[0] && rest[1..] == Remaining(w, s.cookie))
  }

  /** A call with a null cookie starts the listing, whatever the flags were. */
  lemma CallStarts(w: World, s: State)
    requires ValidWorld(w) && ValidState(w, s) && s.cookie.Null?
    ensures OnTrack(w, DevEnum(w, s), Listing(w))
  {
    hide EnumStorage, ListedFrom;
    if !w.net {
      var s1 := State(CLEAR, CLEAR, Null);
      assert Entering(w, s1, 0);
      WalkFrom(w, s1, 0);
      assert [] + ListedFrom(w, 0, 0) == ListedFrom(w, 0, 0);
    }
  }

  /** A call in the middle moves one device on, and clears the cookie behind the last one. */
  lemma CallAdvances(w: World, s: State, rest: seq<Cookie>)
    requires ValidWorld(w) && OnTrack(w, s, rest) && rest != []
    ensures OnTrack(w, DevEnum(w, s), rest[1..])
  {
    hide EnumStorage, ListedFrom;
    if s.cookie.Dev? {
      PassOver(w, s, 0);
    } else {
      assert Entering(w, s, 0);
      WalkFrom(w, s, 0);
    }
  }

  // ---- the listing

  ghost predicate Before(a: Cookie, b: Cookie) {
    b.Dev? && (a.Net? || (a.Dev? && (a.g < b.g || (a.g == b.g && a.i < b.i))))
  }

  /** A device that is returned: active, with no inactive device in front of it in its group. */
  ghost predicate Visible(w: World, g: nat, i: nat) {
    && g < |w.groups| && i < |w.groups[g].slots| && w.groups[g].slots[i] == Active
    && forall k | 0 <= k < i :: w.groups[g].slots[k] != Inactive
  }

  ghost predicate VisibleFrom(w: World, g0: nat, i0: nat, g: nat, i: nat) {
    && g < |w.groups| && i < |w.groups[g].slots| && w.groups[g].slots[i] == Active
    && (g > g0 || (g == g0 && i >= i0))
    && forall k | (if g == g0 then i0 else 0) <= k < i :: w.groups[g].slots[k] != Inactive
  }

  lemma {:induction false} ListedIsVisible(w: World, g0: nat, i0: nat, c: Cookie)
    requires |w.groups| == ENUM_MAX && g0 <= ENUM_MAX
    ensures c in ListedFrom(w, g0, i0) <==> c.Dev? && VisibleFrom(w, g0, i0, c.g, c.i)
    decreases ENUM_MAX - g0, if g0 < ENUM_MAX && i0 < |w.groups[g0].slots| then |w.groups[g0].slots| - i0 else 0
  {
    if g0 < ENUM_MAX {
      var slots := w.groups[g0].slots;
      if i0 >= |slots| || slots[i0] == Inactive {
        ListedIsVisible(w, g0 + 1, 0, c);
      } else {
        ListedIsVisible(w, g0, i0 + 1, c);
      }
    }
  }

  ghost predicate InOrder(l: seq<Cookie>) {
    forall a, b | 0 <= a < b < |l| :: Before(l[a], l[b])
  }

  lemma InOrderCons(c: Cookie, l: seq<Cookie>)
    requires InOrder(l) && forall b | 0 <= b < |l| :: Before(c, l[b])
    ensures InOrder([c] + l)
  {
    hide Before;
    var m := [c] + l;
    forall a, b | 0 <= a < b < |m| ensures Before(m[a], m[b]) {
      assert m[b] == l[b - 1];
      if a > 0 { assert m[a] == l[a - 1]; }
    }
  }

  lemma {:induction false} ListedInOrder(w: World, g0: nat, i0: nat)
    requires |w.groups| == ENUM_MAX && g0 <= ENUM_MAX
    ensures InOrder(ListedFrom(w, g0, i0))
    decreases ENUM_MAX - g0, if g0 < ENUM_MAX && i0 < |w.groups[g0].slots| then |w.groups[g0].slots| - i0 else 0
  {
    hide Before;
    if g0 < ENUM_MAX {
      var slots := w.groups[g0].slots;
      if i0 >= |slots| || slots[i0] == Inactive {
        ListedInOrder(w, g0 + 1, 0);
      } else {
        ListedInOrder(w, g0, i0 + 1);
        var rest := ListedFrom(w, g0, i0 + 1);
        forall b | 0 <= b < |rest| ensures Before(Dev(g0, i0), rest[b]) {
          ListedIsVisible(w, g0, i0 + 1, rest[b]);
          assert rest[b] in rest;
          StartsBefore(w, g0, i0, rest[b]);
        }
        InOrderCons(Dev(g0, i0), rest);
      }
    }
  }

  lemma StartsBefore(w: World, g0: nat, i0: nat, c: Cookie)
    requires c.Dev? && VisibleFrom(w, g0, i0 + 1, c.g, c.i)
    ensures Before(Dev(g0, i0), c)
  {
  }

  /** Strictly increasing, the network device first; exactly the visible devices. */
  lemma ListingIsExact(w: World)
    requires |w.groups| == ENUM_MAX
    ensures InOrder(Listing(w))
    ensures forall g, i :: Dev(g, i) in Listing(w) <==> Visible(w, g, i)
    ensures (Net in Listing(w) <==> w.net) && Null !in Listing(w)
  {
    hide ListedFrom, InOrder;
    var rest := ListedFrom(w, 0, 0);
    ListedInOrder(w, 0, 0);
    forall c ensures c in rest <==> c.Dev? && VisibleFrom(w, 0, 0, c.g, c.i) { ListedIsVisible(w, 0, 0, c); }
    forall b | 0 <= b < |rest| ensures rest[b].Dev? { assert rest[b] in rest; }
    if w.net {
      InOrderCons(Net, rest);
    } else {
      assert [] + rest == rest;
    }
  }

  /** Every active device is returned exactly when no active device sits behind an inactive one of its group. */
  lemma AllActiveListed(w: World)
    requires |w.groups| == ENUM_MAX
    ensures (forall g, i | 0 <= g < ENUM_MAX && 0 <= i < |w.groups[g].slots| && w.groups[g].slots[i] == Active ::
               Dev(g, i) in Listing(w))
       <==> (forall g, k, i | 0 <= g < ENUM_MAX && 0 <= k < i < |w.groups[g].slots| ::
               w.groups[g].slots[i] == Active ==> w.groups[g].slots[k] != Inactive)
  {
    hide Listing;
    ListingIsExact(w);
    if forall g, i | 0 <= g < ENUM_MAX && 0 <= i < |w.groups[g].slots| && w.groups[g].slots[i] == Active ::
         Dev(g, i) in Listing(w) {
      forall g, k, i | 0 <= g < ENUM_MAX && 0 <= k < i < |w.groups[g].slots| && w.groups[g].slots[i] == Active
        ensures w.groups[g].slots[k] != Inactive
      {
        assert Dev(g, i) in Listing(w);
        assert Visible(w, g, i);
      }
    }
  }

  // ---- as it runs

  /** The static flags and the caller's device_info. */
  class Enumerator {
    const world: World
    var started: seq<bool>
    var ended: seq<bool>
    var cookie: Cookie

    ghost predicate Valid()
      reads this
    {
      ValidWorld(world) && ValidState(world, St())
    }

    ghost function St(): State
      reads this
    {
      State(started, ended, cookie)
    }

    constructor (world: World)
      requires ValidWorld(world)
      ensures Valid() && this.world == world && cookie == Null
    {
      this.world := world;
      started, ended, cookie := CLEAR, CLEAR, Null;
    }

    /** Finds the slot of the cookie, then the next occupied one. */
    method Get(g: nat) returns (found: bool, more: bool)
      requires Valid() && g < ENUM_MAX
      modifies this`cookie
      ensures (St(), found, more) == StorGet(world, old(St()), g)
    {
      var group := world.groups[g];
      if !group.configured { return false, false; }
      var i := 0;
      if cookie != Null {
        while i < |group.slots| && !(group.slots[i] != Absent && cookie == Dev(g, i))
          invariant i <= |group.slots|
          invariant forall k | 0 <= k < i :: !(group.slots[k] != Absent && cookie == Dev(g, k))
        {
          i := i + 1;
        }
        i := if i < |group.slots| then i + 1 else 0;
      }
      assert i == Resume(old(St()), g);
      ghost var from := i;
      while i < |group.slots| && group.slots[i] == Absent
        invariant from <= i <= |group.slots| && NextSlot(group.slots, from) == NextSlot(group.slots, i)
      {
        i := i + 1;
      }
      more := i < |group.slots|;
      found := more && group.slots[i] == Active;
      cookie := if more then Dev(g, i) else Null;
    }

    method EnumGroup(g: nat) returns (found: bool)
      requires Valid() && g < ENUM_MAX
      modifies this
      ensures Result(St(), found) == EnumStor(world, old(St()), g)
    {
      hide StorGet;
      var more;
      if cookie == Null {
        found, more := Get(g);
        started := started[g := true];
      } else if ended[g] {
        return false;
      } else if cookie.Dev? && cookie.g == g {
        found, more := Get(g);
      } else if !started[g] {
        started := started[g := true];
        found, more := Get(g);
      } else {
        found, more := false, false;
      }
      ended := ended[g := !more];
    }

    method EnumGroups() returns (found: bool)
      requires Valid()
      modifies this
      ensures Result(St(), found) == EnumStorage(world, old(St()), 0) && Valid()
    {
      hide EnumStor;
      for g := 0 to ENUM_MAX
        invariant Valid() && EnumStorage(world, old(St()), 0) == EnumStorage(world, St(), g)
      {
        EnumStorValid(world, St(), g);
        found := EnumGroup(g);
        if found { return; }
      }
      found := false;
    }

    /** API_dev_enum. */
    method Call()
      requires Valid()
      modifies this
      ensures Valid() && St() == DevEnum(world, old(St()))
    {
      hide EnumStorage;
      if cookie == Null {
        started, ended := CLEAR, CLEAR;
        if world.net {
          cookie := Net;
          return;
        }
      }
      var found := EnumGroups();
      if !found { cookie := Null; }
    }
  }

  lemma EnumStorValid(w: World, s: State, g: nat)
    requires ValidWorld(w) && ValidState(w, s) && g < ENUM_MAX
    ensures ValidState(w, EnumStor(w, s, g).s)
  {
  }

  /**
    A caller that repeats the call from a null cookie until the cookie is null again gets the whole
    listing, in order, each device once, and the run ends.
   */
  method EnumerateAll(w: World) returns (list: seq<Cookie>)
    requires ValidWorld(w)
    ensures list == Listing(w)
  {
    hide DevEnum, ListedFrom, Listing, AtDevice, Remaining;
    var e := new Enumerator(w);
    list := [];
    ghost var rest := Listing(w);
    CallStarts(w, e.St());
    e.Call();
    while e.cookie != Null
      invariant e.Valid() && e.world == w && OnTrack(w, e.St(), rest) && list + rest == Listing(w)
      decreases |rest|
    {
      CallAdvances(w, e.St(), rest);
      list := list + [e.cookie];
      rest := rest[1..];
      e.Call();
    }
  }
}
