/**
 * The global hot key helper of ClipboardHistory (Libraries/GlobalHotkeys.cs):
 * the hidden message window that decodes WM_HOTKEY, the ModifierKeys flags,
 * and KeyboardHook, which numbers its registrations, pauses and resumes the
 * ones tied to an owning form, and releases them all on teardown.
 *
 * The operating system's hot key table (user32 RegisterHotKey and
 * UnregisterHotKey) is modelled by the class Registrar below.
 */
module Hotkeys {

  datatype Option<+T> = None | Some(value: T)

  // ---------------------------------------------------------------------------
  // Constants

  /** The message Windows posts to the hidden window when a hot key is pressed. */
  const WM_HOTKEY: int := 0x0312

  // The ModifierKeys flags, as the 32-bit values handed to the registrar.
  const NoModifier: bv32 := 0
  const Alt: bv32 := 1
  const Control: bv32 := 2
  const Shift: bv32 := 4
  const Win: bv32 := 8

  // ---------------------------------------------------------------------------
  // The hidden message window

  /** The payload of a KeyPressed event: the modifiers held and the key pressed. */
  datatype KeyPressedEventArgs = KeyPressedEventArgs(modifier: bv32, key: bv32)

  /**
   * How Windows packs a hot key into WM_HOTKEY's LParam: the key code in the
   * high word, the modifier flags in the low word.
   */
  function PackLParam(modifier: bv32, key: bv32): bv32
  {
    (key << 16) | (modifier & 0xFFFF)
  }

  /**
   * The window's decoding of LParam (taken as the 32 bits of `(int)m.LParam`):
   * the key is `(LParam >> 16) & 0xFFFF`, the modifier `LParam & 0xFFFF`.
   * The source shifts an `int` arithmetically; after the mask that is the
   * same as the logical shift used here.
   */
  function DecodeLParam(lParam: bv32): (args: KeyPressedEventArgs)
    ensures args.modifier < 0x10000 && args.key < 0x10000
  {
    KeyPressedEventArgs(lParam & 0xFFFF, (lParam >> 16) & 0xFFFF)
  }

  /** Decoding recovers any 16-bit (modifier, key) pair Windows packed. */
  lemma DecodePack(modifier: bv32, key: bv32)
    requires modifier < 0x10000 && key < 0x10000
    ensures DecodeLParam(PackLParam(modifier, key)) == KeyPressedEventArgs(modifier, key)
  {
    var args := DecodeLParam(PackLParam(modifier, key));
    assert args.modifier == modifier;
    assert args.key == key;
  }

  /** Decoding loses nothing: the decoded pair packs back to the same LParam. */
  lemma PackDecode(lParam: bv32)
    ensures PackLParam(DecodeLParam(lParam).modifier, DecodeLParam(lParam).key) == lParam
  {
    assert (((lParam >> 16) & 0xFFFF) << 16) | ((lParam & 0xFFFF) & 0xFFFF) == lParam;
  }

  /**
   * Window.WndProc: a KeyPressed event is raised only for WM_HOTKEY and only
   * when a handler is attached; the event then carries exactly what LParam
   * holds.
   */
  function WindowWndProc(msg: int, lParam: bv32, subscribed: bool): (event: Option<KeyPressedEventArgs>)
    ensures event.Some? <==> msg == WM_HOTKEY && subscribed
    ensures event.Some? ==> event.value.modifier < 0x10000 && event.value.key < 0x10000
    ensures event.Some? ==> PackLParam(event.value.modifier, event.value.key) == lParam
  {
    if msg == WM_HOTKEY && subscribed then
      PackDecode(lParam);
      Some(DecodeLParam(lParam))
    else
      None
  }

  // ---------------------------------------------------------------------------
  // The operating system's hot key table

  /** A hot key combination, as the (fsModifiers, vk) pair passed to user32. */
  datatype Combo = Combo(modifier: bv32, key: bv32)

  /** A call the manager made to the registrar, in the order it was made. */
  datatype Call = BindCall(id: int, combo: Combo) | UnbindCall(id: int)

  /** Windows refuses a combination that some window already holds. */
  predicate CanBind(bound: map<int, Combo>, claimed: set<Combo>, c: Combo)
  {
    c !in claimed && c !in bound.Values
  }

  /**
   * The hot keys held for the hidden window (`bound`, by id), the
   * combinations held by every other window (`claimed`), and the log of
   * calls the manager made.
   */
  class Registrar {
    var bound: map<int, Combo>
    var claimed: set<Combo>
    ghost var log: seq<Call>

    /** A combination is held by at most one hot key system-wide. */
    ghost predicate Valid()
      reads this
    {
      && (forall i, j :: i in bound && j in bound && i != j ==> bound[i] != bound[j])
      && (forall i :: i in bound ==> bound[i] !in claimed)
    }

    constructor (claimed: set<Combo>)
      ensures Valid()
      ensures bound == map[] && this.claimed == claimed && log == []
    {
      bound := map[];
      this.claimed := claimed;
      log := [];
    }

    /** user32 RegisterHotKey for the hidden window; never asked to bind a live id. */
    method Bind(id: int, c: Combo) returns (ok: bool)
      requires Valid() && id !in bound
      modifies this
      ensures Valid()
      ensures ok == CanBind(old(bound), old(claimed), c)
      ensures bound == if ok then old(bound)[id := c] else old(bound)
      ensures claimed == old(claimed) && log == old(log) + [BindCall(id, c)]
    {
      ok := CanBind(bound, claimed, c);
      if ok {
        bound := bound[id := c];
      }
      log := log + [BindCall(id, c)];
    }

    /** user32 UnregisterHotKey for the hidden window: fails for an id it does not hold. */
    method Unbind(id: int) returns (ok: bool)
      requires Valid()
      modifies this
      ensures Valid()
      ensures ok == (id in old(bound))
      ensures bound == old(bound) - {id}
      ensures claimed == old(claimed) && log == old(log) + [UnbindCall(id)]
    {
      ok := id in bound;
      bound := bound - {id};
      log := log + [UnbindCall(id)];
    }

    /** Another application takes a free combination. */
    method Claim(c: Combo)
      requires Valid() && c !in bound.Values
      modifies this`claimed
      ensures Valid() && claimed == old(claimed) + {c}
    {
      claimed := claimed + {c};
    }

    /** Another application gives a combination up. */
    method Release(c: Combo)
      requires Valid()
      modifies this`claimed
      ensures Valid() && claimed == old(claimed) - {c}
    {
      claimed := claimed - {c};
    }
  }

  // ---------------------------------------------------------------------------
  // List<int> operations used on PausedHotkeys

  predicate NoDuplicates(s: seq<int>)
  {
    forall i, j :: 0 <= i < j < |s| ==> s[i] != s[j]
  }

  /** List<T>.IndexOf: the position of the first occurrence of x, or -1. */
  function IndexOf<T(==)>(s: seq<T>, x: T): (i: int)
    ensures -1 <= i < |s|
    ensures i == -1 <==> x !in s
    ensures 0 <= i ==> s[i] == x && x !in s[..i]
  {
    if s == [] then -1
    else if s[0] == x then 0
    else
      var j := IndexOf(s[1..], x);
      assert s[1..][..j + 1] == s[1..j + 2] by { }
      if j == -1 then -1 else j + 1
  }

  /** List<int>.Remove: drops the first occurrence of x, if there is one. */
  function RemoveFirst(s: seq<int>, x: int): (r: seq<int>)
    ensures multiset(r) == multiset(s) - multiset{x}
  {
    var i := IndexOf(s, x);
    if i < 0 then s
    else
      assert s == s[..i] + [s[i]] + s[i + 1..];
      s[..i] + s[i + 1..]
  }

  /** Cutting one element out of a duplicate-free list removes exactly that element. */
  lemma CutNoDuplicates(s: seq<int>, i: int)
    requires NoDuplicates(s) && 0 <= i < |s|
    ensures var r := s[..i] + s[i + 1..];
            && NoDuplicates(r)
            && s[i] !in r
            && forall y :: y != s[i] ==> (y in r <==> y in s)
  {
    var r := s[..i] + s[i + 1..];
    assert |r| == |s| - 1;
    assert forall k :: 0 <= k < |r| ==> r[k] == if k < i then s[k] else s[k + 1];
    forall a, b | 0 <= a < b < |r| ensures r[a] != r[b] {
      var a' := if a < i then a else a + 1;
      var b' := if b < i then b else b + 1;
      assert r[a] == s[a'] && r[b] == s[b'];
    }
    forall k | 0 <= k < |r| ensures r[k] != s[i] {
      var k' := if k < i then k else k + 1;
      assert r[k] == s[k'];
    }
    forall y | y != s[i] && y in s ensures y in r {
      var k :| 0 <= k < |s| && s[k] == y;
      var k' := if k < i then k else k - 1;
      assert r[k'] == y;
    }
  }

  /** On a list without duplicates, Remove takes x out entirely and keeps the list duplicate-free. */
  lemma RemoveFirstNoDuplicates(s: seq<int>, x: int)
    requires NoDuplicates(s)
    ensures NoDuplicates(RemoveFirst(s, x))
    ensures x !in RemoveFirst(s, x)
    ensures forall y :: y != x ==> (y in RemoveFirst(s, x) <==> y in s)
  {
    var i := IndexOf(s, x);
    if i >= 0 {
      CutNoDuplicates(s, i);
    }
  }

  /** Removing an id that was just appended to a list not holding it gives the list back. */
  lemma RemoveFirstAppended(s: seq<int>, x: int)
    requires x !in s
    ensures RemoveFirst(s + [x], x) == s
  {
    var t := s + [x];
    var i := IndexOf(t, x);
    assert t[|s|] == x;
    assert t[..|s|] == s;
  }

  // ---------------------------------------------------------------------------
  // The focus gate, as functions of the state it reads and writes

  datatype HotkeyError = CouldNotRegister | CouldNotUnregister

  /** How a call ends: normally, or with an InvalidOperationException. */
  datatype Outcome = Done | Thrown(error: HotkeyError)

  /**
   * What one handler does: how it ends, the paused list and the live
   * bindings afterwards, and the registrar calls it made.
   */
  datatype Step = Step(outcome: Outcome, paused: seq<int>, bound: map<int, Combo>, calls: seq<Call>)

  /** Paused ids are distinct and none of them is held by the registrar. */
  predicate PausedInvariant(paused: seq<int>, bound: map<int, Combo>)
  {
    NoDuplicates(paused) && forall k :: 0 <= k < |paused| ==> paused[k] !in bound
  }

  /** The Deactivate handler of gated id `id`. */
  function DeactivateStep(paused: seq<int>, bound: map<int, Combo>, id: int): Step
  {
    if id in paused then Step(Done, paused, bound, [])
    else if id !in bound then Step(Thrown(CouldNotUnregister), paused, bound, [UnbindCall(id)])
    else Step(Done, paused + [id], bound - {id}, [UnbindCall(id)])
  }

  /** The Activated handler of gated id `id`, which captured `combo` at registration. */
  function ActivateStep(paused: seq<int>, bound: map<int, Combo>, claimed: set<Combo>, id: int, combo: Combo): Step
  {
    if id !in paused then Step(Done, paused, bound, [])
    else if !CanBind(bound, claimed, combo) then Step(Thrown(CouldNotRegister), paused, bound, [BindCall(id, combo)])
    else Step(Done, RemoveFirst(paused, id), bound[id := combo], [BindCall(id, combo)])
  }

  /** Both handlers keep the paused list duplicate-free and disjoint from the live bindings. */
  lemma GateStepsKeepPausedInvariant(paused: seq<int>, bound: map<int, Combo>, claimed: set<Combo>, id: int, combo: Combo)
    requires PausedInvariant(paused, bound)
    ensures PausedInvariant(DeactivateStep(paused, bound, id).paused, DeactivateStep(paused, bound, id).bound)
    ensures PausedInvariant(ActivateStep(paused, bound, claimed, id, combo).paused, ActivateStep(paused, bound, claimed, id, combo).bound)
  {
    var a := ActivateStep(paused, bound, claimed, id, combo);
    if id in paused && CanBind(bound, claimed, combo) {
      RemoveFirstNoDuplicates(paused, id);
      forall k | 0 <= k < |a.paused| ensures a.paused[k] !in a.bound {
        assert a.paused[k] in paused;
      }
    }
  }

  /**
   * Two deactivations in a row: the second changes nothing, and when the
   * first succeeded the second makes no registrar call, so the id is
   * unbound at most once.
   */
  lemma DeactivateTwice(paused: seq<int>, bound: map<int, Combo>, id: int)
    ensures var s1 := DeactivateStep(paused, bound, id);
            var s2 := DeactivateStep(s1.paused, s1.bound, id);
            && s2.paused == s1.paused && s2.bound == s1.bound
            && (s1.outcome.Done? ==> s2 == Step(Done, s1.paused, s1.bound, []))
  {
  }

  /**
   * Two activations in a row: the second changes nothing, and when the
   * first succeeded the second makes no registrar call.
   */
  lemma ActivateTwice(paused: seq<int>, bound: map<int, Combo>, claimed: set<Combo>, id: int, combo: Combo)
    requires NoDuplicates(paused)
    ensures var s1 := ActivateStep(paused, bound, claimed, id, combo);
            var s2 := ActivateStep(s1.paused, s1.bound, claimed, id, combo);
            && s2.paused == s1.paused && s2.bound == s1.bound
            && (s1.outcome.Done? ==> s2 == Step(Done, s1.paused, s1.bound, []))
  {
    RemoveFirstNoDuplicates(paused, id);
  }

  /**
   * While another application holds a paused id's combination, resuming it
   * throws and the id stays paused with the table unchanged; once that
   * application releases the combination, resuming it succeeds.
   */
  lemma ActivateWhileClaimedElsewhere(paused: seq<int>, bound: map<int, Combo>, claimed: set<Combo>, id: int, combo: Combo)
    requires id in paused
    requires combo !in bound.Values
    ensures var s := ActivateStep(paused, bound, claimed + {combo}, id, combo);
            s.outcome == Thrown(CouldNotRegister) && s.paused == paused && s.bound == bound && id in s.paused
    ensures ActivateStep(paused, bound, claimed - {combo}, id, combo).outcome == Done
  {
  }

  /**
   * Deactivating and then activating a live gated id restores the paused
   * list and the bindings exactly: the id is unbound once and bound again
   * with the combination it held.
   */
  lemma DeactivateThenActivate(paused: seq<int>, bound: map<int, Combo>, claimed: set<Combo>, id: int)
    requires id !in paused && id in bound && bound[id] !in claimed
    requires forall i, j :: i in bound && j in bound && i != j ==> bound[i] != bound[j]
    ensures var d := DeactivateStep(paused, bound, id);
            var a := ActivateStep(d.paused, d.bound, claimed, id, bound[id]);
            && d.outcome == Done && a.outcome == Done
            && a.paused == paused && a.bound == bound
            && d.calls + a.calls == [UnbindCall(id), BindCall(id, bound[id])]
  {
    var c := bound[id];
    var rest := bound - {id};
    ReleasedCombinationIsFree(bound, id);
    RemoveFirstAppended(paused, id);
    assert rest[id := c] == bound;
    var d := DeactivateStep(paused, bound, id);
    assert d == Step(Done, paused + [id], rest, [UnbindCall(id)]);
    var a := ActivateStep(d.paused, d.bound, claimed, id, c);
    assert a == Step(Done, paused, bound, [BindCall(id, c)]);
  }

  /** Once an id is unbound, no other id holds its combination. */
  lemma ReleasedCombinationIsFree(bound: map<int, Combo>, id: int)
    requires id in bound
    requires forall i, j :: i in bound && j in bound && i != j ==> bound[i] != bound[j]
    ensures bound[id] !in (bound - {id}).Values
  {
    var rest := bound - {id};
    forall j | j in rest ensures rest[j] != bound[id] {
      assert j != id && rest[j] == bound[j];
    }
  }

  // ---------------------------------------------------------------------------
  // The teardown sweep, as functions of the live ids

  /**
   * The id at which a teardown sweep starting at `top` stops: the highest id
   * in 1..top the registrar does not hold, or 0 when it holds them all.
   */
  function SweepStop(top: int, bound: set<int>): (stop: int)
    ensures stop == 0 || 1 <= stop <= top
    ensures stop > 0 ==> stop !in bound
    ensures forall id :: stop < id <= top ==> id in bound
    decreases top
  {
    if top <= 0 then 0
    else if top !in bound then top
    else SweepStop(top - 1, bound)
  }

  /**
   * The registrar calls of the teardown loop: unbind top, top-1, ..., and
   * give up after the first id the registrar refuses.
   */
  function SweepCalls(top: int, bound: set<int>): seq<Call>
    decreases top
  {
    if top <= 0 then []
    else if top !in bound then [UnbindCall(top)]
    else [UnbindCall(top)] + SweepCalls(top - 1, bound)
  }

  /**
   * The sweep unbinds consecutive ids in strictly descending order from
   * `top`, down to 1 when every id is held, and otherwise down to and
   * including the first id the registrar refuses.
   */
  lemma {:induction false} SweepCallsDescend(top: int, bound: set<int>)
    ensures var calls := SweepCalls(top, bound);
            var stop := SweepStop(top, bound);
            && |calls| == (if stop == 0 then (if top < 0 then 0 else top) else top - stop + 1)
            && forall k :: 0 <= k < |calls| ==> calls[k] == UnbindCall(top - k)
  {
    if top > 0 && top in bound {
      SweepCallsDescend(top - 1, bound);
      var calls := SweepCalls(top, bound);
      var rest := SweepCalls(top - 1, bound);
      assert calls == [UnbindCall(top)] + rest;
      forall k | 0 <= k < |calls| ensures calls[k] == UnbindCall(top - k) {
        if k > 0 {
          assert calls[k] == rest[k - 1];
        }
      }
    }
  }

  /** The sweep releases everything exactly when the registrar holds every id in 1..top. */
  lemma SweepSucceedsIffAllHeld(top: int, bound: set<int>)
    ensures SweepStop(top, bound) == 0 <==> forall id :: 1 <= id <= top ==> id in bound
  {
  }

  /** Regrouping a concatenation, for the sweep's log. */
  lemma Associate<T>(a: seq<T>, b: seq<T>, c: seq<T>)
    ensures (a + b) + c == a + (b + c)
  {
  }

  /** One turn of the sweep at id `i`, with every id above `i` up to `top` held. */
  lemma SweepStep(top: int, i: int, held: set<int>)
    requires 0 < i <= top
    requires forall id :: i < id <= top ==> id in held
    ensures i !in held ==> SweepStop(top, held) == i && SweepCalls(i, held) == [UnbindCall(i)]
    ensures i in held ==> SweepStop(top, held) == SweepStop(i - 1, held)
    ensures i in held ==> SweepCalls(i, held) == [UnbindCall(i)] + SweepCalls(i - 1, held)
  {
    if i < top {
      SweepStep(top - 1, i, held);
    }
  }

  /**
   * The loop UnregisterAllHotkeys and Dispose share: for i from `top` down to
   * 1, unbind i, and throw at the first id the registrar refuses.
   */
  method UnregisterDescending(os: Registrar, top: int) returns (r: Outcome)
    requires os.Valid() && top >= 0
    modifies os
    ensures os.Valid()
    ensures os.log == old(os.log) + SweepCalls(top, old(os.bound).Keys)
    ensures forall id :: id in os.bound <==> id in old(os.bound) && !(SweepStop(top, old(os.bound).Keys) < id <= top)
    ensures forall id :: id in os.bound ==> os.bound[id] == old(os.bound)[id]
    ensures r.Done? <==> SweepStop(top, old(os.bound).Keys) == 0
    ensures r.Thrown? ==> r.error == CouldNotUnregister
    ensures os.claimed == old(os.claimed)
  {
    ghost var held := os.bound.Keys;
    ghost var bound0 := os.bound;
    ghost var log0 := os.log;
    ghost var done: seq<Call> := [];
    var i := top;
    while i > 0
      invariant 0 <= i <= top
      invariant os.Valid() && os.claimed == old(os.claimed)
      invariant forall id :: i < id <= top ==> id in held
      invariant forall id :: id in os.bound <==> id in bound0 && !(i < id <= top)
      invariant forall id :: id in os.bound ==> os.bound[id] == bound0[id]
      invariant os.log == log0 + done
      invariant SweepCalls(top, held) == done + SweepCalls(i, held)
    {
      SweepStep(top, i, held);
      var ok := os.Unbind(i);
      Associate(log0, done, [UnbindCall(i)]);
      Associate(done, [UnbindCall(i)], SweepCalls(i - 1, held));
      done := done + [UnbindCall(i)];
      if !ok {
        return Thrown(CouldNotUnregister);
      }
      i := i - 1;
    }
    r := Done;
  }

  // ---------------------------------------------------------------------------
  // KeyboardHook

  /** Stands for a Form reference passed as LimitedTo. */
  type FormId = nat

  /** What a RegisterHotKey call asked for, and whether the registrar accepted it. */
  datatype Registration = Registration(combo: Combo, owner: Option<FormId>, succeeded: bool)

  /** The Activated/Deactivate handler pair installed for one id: its form and captured combination. */
  datatype Gate = Gate(owner: FormId, combo: Combo)

  class KeyboardHook {
    /** The registrar, seen through the hidden window's handle. */
    const os: Registrar
    var currentId: int
    var pausedHotkeys: seq<int>
    /** The ids whose focus-gate handlers are installed. */
    var gates: map<int, Gate>
    /** Whether the hidden window's handle exists. */
    var windowAlive: bool
    /** history[k] is the registration that used id k + 1. */
    ghost var history: seq<Registration>

    ghost predicate Valid()
      reads this, os
    {
      os.Valid() && Consistent(pausedHotkeys, os.bound)
    }

    /**
     * The manager's bookkeeping agrees with the registrar holding `bound`:
     * ids 1..currentId were handed out in order, gates exist exactly for the
     * successful registrations with an owning form, every held id was
     * registered successfully with the combination it holds, and paused ids
     * `paused` are distinct, gated and not held.
     */
    ghost predicate Consistent(paused: seq<int>, bound: map<int, Combo>)
      reads this
    {
      && currentId == |history|
      && (forall id :: id in gates ==>
            1 <= id <= currentId && history[id - 1] == Registration(gates[id].combo, Some(gates[id].owner), true))
      && (forall k :: 0 <= k < |history| && history[k].succeeded && history[k].owner.Some? ==> (k + 1) in gates)
      && (forall id :: id in bound ==>
            1 <= id <= currentId && history[id - 1].succeeded && bound[id] == history[id - 1].combo)
      && PausedInvariant(paused, bound)
      && (forall k :: 0 <= k < |paused| ==> paused[k] in gates)
    }

    /** Releasing bindings never breaks the bookkeeping. */
    lemma ConsistentWhenReleased(smaller: map<int, Combo>, larger: map<int, Combo>)
      requires Consistent(pausedHotkeys, larger)
      requires forall id :: id in smaller ==> id in larger && smaller[id] == larger[id]
      ensures Consistent(pausedHotkeys, smaller)
    {
    }

    /** Re-binding a paused gated id to its own combination keeps the bookkeeping. */
    lemma ConsistentWhenActivated(paused: seq<int>, bound: map<int, Combo>, id: int)
      requires Consistent(paused, bound) && id in paused && id in gates
      ensures Consistent(RemoveFirst(paused, id), bound[id := gates[id].combo])
    {
      RemoveFirstNoDuplicates(paused, id);
      var rest := RemoveFirst(paused, id);
      forall k | 0 <= k < |rest| ensures rest[k] in gates {
        assert rest[k] in paused;
      }
    }

    /** Pausing a held gated id keeps the bookkeeping. */
    lemma ConsistentWhenDeactivated(paused: seq<int>, bound: map<int, Combo>, id: int)
      requires Consistent(paused, bound) && id in bound && id in gates
      ensures Consistent(paused + [id], bound - {id})
    {
      var p := paused + [id];
      forall k | 0 <= k < |p| ensures p[k] in gates {
        if k < |paused| {
          assert p[k] == paused[k];
        }
      }
    }

    /**
     * Every id whose registration succeeded is held by the registrar unless
     * its gate has paused it. Holds until the first teardown sweep.
     */
    ghost predicate Live()
      reads this, os
    {
      forall k :: 0 <= k < |history| && history[k].succeeded ==> (k + 1) in os.bound || (k + 1) in pausedHotkeys
    }

    constructor (os: Registrar)
      requires os.Valid() && os.bound == map[]
      ensures Valid() && Live()
      ensures this.os == os && os.log == old(os.log)
      ensures currentId == 0 && pausedHotkeys == [] && gates == map[] && windowAlive
    {
      this.os := os;
      currentId := 0;
      pausedHotkeys := [];
      gates := map[];
      windowAlive := true;
      history := [];
    }

    /**
     * Takes the next id before asking the registrar, so a refused combination
     * still uses up its id; installs the focus gate only when the bind
     * succeeded and an owning form was given.
     */
    method RegisterHotKey(modifier: bv32, key: bv32, limitedTo: Option<FormId>) returns (r: Outcome)
      requires Valid()
      modifies this, os
      ensures Valid()
      ensures currentId == old(currentId) + 1
      ensures history == old(history) + [Registration(Combo(modifier, key), limitedTo, r.Done?)]
      ensures r.Done? <==> CanBind(old(os.bound), old(os.claimed), Combo(modifier, key))
      ensures r.Thrown? ==> r.error == CouldNotRegister
      ensures os.log == old(os.log) + [BindCall(currentId, Combo(modifier, key))]
      ensures os.bound == if r.Done? then old(os.bound)[currentId := Combo(modifier, key)] else old(os.bound)
      ensures gates == if r.Done? && limitedTo.Some? then old(gates)[currentId := Gate(limitedTo.value, Combo(modifier, key))]
                       else old(gates)
      ensures pausedHotkeys == old(pausedHotkeys) && windowAlive == old(windowAlive) && os.claimed == old(os.claimed)
      ensures old(Live()) ==> Live()
    {
      currentId := currentId + 1;
      var combo := Combo(modifier, key);
      var ok := os.Bind(currentId, combo);
      history := history + [Registration(combo, limitedTo, ok)];
      if !ok {
        return Thrown(CouldNotRegister);
      }
      if limitedTo.Some? {
        gates := gates[currentId := Gate(limitedTo.value, combo)];
      }
      r := Done;
    }

    /** The Activated handler of gated id `id`: resume it if it is paused. */
    method Activated(id: int) returns (r: Outcome)
      requires Valid() && id in gates
      modifies this`pausedHotkeys, os
      ensures Valid()
      ensures var s := ActivateStep(old(pausedHotkeys), old(os.bound), old(os.claimed), id, gates[id].combo);
              && r == s.outcome && pausedHotkeys == s.paused && os.bound == s.bound
              && os.log == old(os.log) + s.calls
      ensures os.claimed == old(os.claimed)
      ensures old(Live()) ==> Live()
    {
      GateStepsKeepPausedInvariant(pausedHotkeys, os.bound, os.claimed, id, gates[id].combo);
      if id in pausedHotkeys {
        var ok := os.Bind(id, gates[id].combo);
        if !ok {
          return Thrown(CouldNotRegister);
        }
        ConsistentWhenActivated(pausedHotkeys, old(os.bound), id);
        pausedHotkeys := RemoveFirst(pausedHotkeys, id);
      }
      r := Done;
    }

    /**
     * The Deactivate handler of gated id `id`: pause it if it is not paused.
     * While the manager is live this never throws.
     */
    method Deactivate(id: int) returns (r: Outcome)
      requires Valid() && id in gates
      modifies this`pausedHotkeys, os
      ensures Valid()
      ensures var s := DeactivateStep(old(pausedHotkeys), old(os.bound), id);
              && r == s.outcome && pausedHotkeys == s.paused && os.bound == s.bound
              && os.log == old(os.log) + s.calls
      ensures os.claimed == old(os.claimed)
      ensures old(Live()) ==> Live() && r == Done
    {
      GateStepsKeepPausedInvariant(pausedHotkeys, os.bound, os.claimed, id, gates[id].combo);
      if id !in pausedHotkeys {
        var ok := os.Unbind(id);
        if !ok {
          return Thrown(CouldNotUnregister);
        }
        ConsistentWhenDeactivated(pausedHotkeys, old(os.bound), id);
        pausedHotkeys := pausedHotkeys + [id];
      }
      r := Done;
    }

    /**
     * Unbinds currentId, currentId-1, ..., 1 and throws at the first id the
     * registrar refuses, leaving the lower ids bound. The counter, the paused
     * list and the gates are left as they are.
     */
    method UnregisterAllHotkeys() returns (r: Outcome)
      requires Valid()
      modifies os
      ensures Valid()
      ensures os.log == old(os.log) + SweepCalls(currentId, old(os.bound).Keys)
      ensures forall id :: id in os.bound <==> id in old(os.bound) && !(SweepStop(currentId, old(os.bound).Keys) < id <= currentId)
      ensures forall id :: id in os.bound ==> os.bound[id] == old(os.bound)[id]
      ensures r.Done? <==> SweepStop(currentId, old(os.bound).Keys) == 0
      ensures r.Thrown? ==> r.error == CouldNotUnregister
      ensures os.claimed == old(os.claimed)
    {
      ghost var bound0 := os.bound;
      r := UnregisterDescending(os, currentId);
      ConsistentWhenReleased(os.bound, bound0);
    }

    /** Dispose: the same sweep, then the hidden window is destroyed if the sweep got through. */
    method Dispose() returns (r: Outcome)
      requires Valid()
      modifies this`windowAlive, os
      ensures Valid()
      ensures os.log == old(os.log) + SweepCalls(currentId, old(os.bound).Keys)
      ensures forall id :: id in os.bound <==> id in old(os.bound) && !(SweepStop(currentId, old(os.bound).Keys) < id <= currentId)
      ensures forall id :: id in os.bound ==> os.bound[id] == old(os.bound)[id]
      ensures r.Done? <==> SweepStop(currentId, old(os.bound).Keys) == 0
      ensures r.Thrown? ==> r.error == CouldNotUnregister
      ensures windowAlive == (old(windowAlive) && r.Thrown?)
      ensures os.claimed == old(os.claimed)
    {
      r := UnregisterAllHotkeys();
      if r.Done? {
        windowAlive := false;
      }
    }
  }

  // ---------------------------------------------------------------------------
  // Properties of the manager's state

  /**
   * Ungated registrations are never paused, and every paused id belongs to a
   * successful registration with an owning form and is at most currentId.
   */
  lemma PausedOnlyGated(h: KeyboardHook)
    requires h.Valid()
    ensures forall k :: 0 <= k < |h.pausedHotkeys| ==>
              var id := h.pausedHotkeys[k];
              1 <= id <= h.currentId && h.history[id - 1].succeeded && h.history[id - 1].owner.Some?
  {
  }

  /**
   * While the manager is live, a successfully registered id is paused
   * exactly when the registrar does not hold it, and only gated ids are ever
   * in that state.
   */
  lemma PausedIffUnbound(h: KeyboardHook, id: int)
    requires h.Valid() && h.Live()
    requires 1 <= id <= h.currentId && h.history[id - 1].succeeded
    ensures id in h.pausedHotkeys <==> id !in h.os.bound
    ensures id in h.pausedHotkeys ==> h.history[id - 1].owner.Some?
  {
    if id in h.pausedHotkeys {
      var k :| 0 <= k < |h.pausedHotkeys| && h.pausedHotkeys[k] == id;
    }
  }

  /**
   * The teardown sweep stops at or above every paused id and every id whose
   * registration was refused: the ids below them are never released.
   */
  lemma SweepStopsAtPausedOrRefused(h: KeyboardHook)
    requires h.Valid()
    ensures var stop := SweepStop(h.currentId, h.os.bound.Keys);
            && (forall k :: 0 <= k < |h.pausedHotkeys| ==> stop >= h.pausedHotkeys[k])
            && (forall k :: 0 <= k < |h.history| && !h.history[k].succeeded ==> stop >= k + 1)
  {
    var stop := SweepStop(h.currentId, h.os.bound.Keys);
    forall k | 0 <= k < |h.pausedHotkeys| ensures stop >= h.pausedHotkeys[k] {
      assert h.pausedHotkeys[k] in h.gates;
    }
    forall k | 0 <= k < |h.history| && !h.history[k].succeeded ensures stop >= k + 1 {
      assert (k + 1) !in h.os.bound;
    }
  }

  /**
   * On a live manager, the teardown sweep gets through exactly when nothing
   * is paused and no registration was ever refused.
   */
  lemma SweepSucceedsIffNothingPausedOrRefused(h: KeyboardHook)
    requires h.Valid() && h.Live()
    ensures SweepStop(h.currentId, h.os.bound.Keys) == 0 <==>
            h.pausedHotkeys == [] && forall k :: 0 <= k < |h.history| ==> h.history[k].succeeded
  {
    var stop := SweepStop(h.currentId, h.os.bound.Keys);
    SweepStopsAtPausedOrRefused(h);
    if h.pausedHotkeys != [] {
      assert h.pausedHotkeys[0] in h.gates;
    }
    if h.pausedHotkeys == [] && forall k :: 0 <= k < |h.history| ==> h.history[k].succeeded {
      forall id | 1 <= id <= h.currentId ensures id in h.os.bound {
        assert h.history[id - 1].succeeded;
      }
    }
  }
}
