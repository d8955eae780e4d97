/** The URL store's synchronisation: the state is read back from the location
    fragment once at start-up, and afterwards every change of the state
    (re)arms a 250 ms timer whose expiry writes the state's token into the
    fragment, unless the token is longer than 4096 characters. Time is not
    modelled: the timer's expiry is an event of its own. */
module UrlSync {
  import opened Wrappers
  import opened Coordinates
  import opened UrlCodec

  /** The longest token that is written to the location. */
  const MaxUrlSize: nat := 4096

  /** The diagram shown before anything is restored. */
  const DefaultCode: string := "graph TD\n  A[Start] --> B[End]"

  const DefaultState: AppState := AppState(DefaultCode, map[], 0, 0)

  /** `window.location.hash`: empty for an empty fragment, otherwise `#` and the fragment. */
  function LocationHash(fragment: string): (h: string)
    ensures h == "" <==> fragment == ""
    ensures h != "" ==> h[0] == '#' && h[1..] == fragment
  {
    if fragment == "" then "" else "#" + fragment
  }

  /** Everything the store's behaviour depends on: the state, the token of the
      armed timer (`None` when no timer is armed), the location fragment, and
      whether the sync effect has been started. */
  datatype Sync = Sync(state: AppState, pending: Option<string>, fragment: string, syncing: bool)

  /** What can happen to the store: `init()` is called, the application
      assigns a new state, or the armed timer expires. */
  datatype Event = Init | Change(next: AppState) | TimerFire

  /** The page as loaded: the default state, no timer, the fragment of the URL. */
  function Load(fragment: string): (m: Sync)
    ensures m.state == DefaultState && m.pending == None && !m.syncing
  {
    Sync(DefaultState, None, fragment, false)
  }

  /** The restore in `init()`: a field that came back replaces the current one
      (`??` for the code and the ids, a truthiness test for the positions). */
  function Merge(current: AppState, r: Restored): AppState {
    AppState(
      r.code.GetOr(current.code),
      if r.positions.Some? then r.positions.value else current.positions,
      r.themeId.GetOr(current.themeId),
      r.directionId.GetOr(current.directionId))
  }

  /** The state `init()` leaves behind after reading the fragment. */
  function Restore(current: AppState, fragment: string, c: Codec): AppState {
    var hash := LocationHash(fragment);
    if hash == "" then current
    else
      match Deserialize(hash, c)
      case None => current
      case Some(r) => Merge(current, r)
  }

  /** One event. `init()` does nothing outside a browser; in one it restores,
      then starts the effect, whose first run arms the timer. A change re-arms
      the timer with the new state's token once the effect runs; the timer
      writes its token when it is short enough. */
  function Step(m: Sync, e: Event, browser: bool, c: Codec): Sync {
    match e
    case Init =>
      if !browser then m
      else
        var s := Restore(m.state, m.fragment, c);
        m.(state := s, pending := Some(Serialize(s, c)), syncing := true)
    case Change(next) =>
      m.(state := next, pending := if m.syncing then Some(Serialize(next, c)) else m.pending)
    case TimerFire =>
      match m.pending
      case None => m
      case Some(t) => m.(pending := None, fragment := if |t| <= MaxUrlSize then t else m.fragment)
  }

  /** A run of events from `m`. */
  function Run(m: Sync, es: seq<Event>, browser: bool, c: Codec): Sync
    decreases |es|
  {
    if es == [] then m else Run(Step(m, es[0], browser, c), es[1..], browser, c)
  }

  /** Only the effect arms the timer, it runs only in a browser, and the armed
      token is always the token of the current state. */
  predicate Inv(m: Sync, browser: bool, c: Codec) {
    (m.syncing ==> browser) &&
    (m.pending.Some? ==> m.syncing && m.pending.value == Serialize(m.state, c))
  }

  /** A fragment the store may have written: the token of some state, no
      longer than the limit. */
  ghost predicate Written(fragment: string, c: Codec) {
    |fragment| <= MaxUrlSize && exists s :: fragment == Serialize(s, c)
  }

  lemma LoadInv(fragment: string, browser: bool, c: Codec)
    ensures Inv(Load(fragment), browser, c)
  {
  }

  lemma {:induction false} RunAppend(m: Sync, a: seq<Event>, b: seq<Event>, browser: bool, c: Codec)
    ensures Run(m, a + b, browser, c) == Run(Run(m, a, browser, c), b, browser, c)
    decreases |a|
  {
    if a == [] {
      assert a + b == b;
    } else {
      assert (a + b)[1..] == a[1..] + b;
      RunAppend(Step(m, a[0], browser, c), a[1..], b, browser, c);
    }
  }

  /** Every event keeps the invariant, and the fragment either stays as it
      was or becomes a written token. */
  lemma StepInv(m: Sync, e: Event, browser: bool, c: Codec)
    requires Inv(m, browser, c)
    ensures Inv(Step(m, e, browser, c), browser, c)
    ensures var f := Step(m, e, browser, c).fragment; f == m.fragment || Written(f, c)
  {
    if e.TimerFire? && m.pending.Some? && |m.pending.value| <= MaxUrlSize {
      assert m.pending.value == Serialize(m.state, c);
    }
  }

  /** Whatever happens, the fragment is the one the page was loaded with or
      the token of some state, never longer than 4096 characters. */
  lemma {:induction false} FragmentIsLoadedOrWritten(m: Sync, es: seq<Event>, browser: bool, c: Codec)
    requires Inv(m, browser, c)
    ensures Inv(Run(m, es, browser, c), browser, c)
    ensures var f := Run(m, es, browser, c).fragment; f == m.fragment || Written(f, c)
    decreases |es|
  {
    if es != [] {
      var m' := Step(m, es[0], browser, c);
      StepInv(m, es[0], browser, c);
      FragmentIsLoadedOrWritten(m', es[1..], browser, c);
    }
  }

  /** Outside a browser the fragment is never written. */
  lemma {:induction false} NoWriteOutsideBrowser(m: Sync, es: seq<Event>, c: Codec)
    requires Inv(m, false, c)
    ensures Run(m, es, false, c).fragment == m.fragment
    ensures Run(m, es, false, c).pending == None
    decreases |es|
  {
    if es != [] {
      StepInv(m, es[0], false, c);
      NoWriteOutsideBrowser(Step(m, es[0], false, c), es[1..], c);
    }
  }

  /** The events of a sequence of assignments. */
  function Changes(ss: seq<AppState>): (es: seq<Event>)
    ensures |es| == |ss| && forall i :: 0 <= i < |ss| ==> es[i] == Change(ss[i])
  {
    seq(|ss|, i requires 0 <= i < |ss| => Change(ss[i]))
  }

  /** Assignments alone never write the fragment; they leave the last state,
      and, once syncing, its token armed. */
  lemma {:induction false} ChangesOnly(m: Sync, ss: seq<AppState>, browser: bool, c: Codec)
    requires ss != []
    ensures var r := Run(m, Changes(ss), browser, c);
      r.fragment == m.fragment && r.syncing == m.syncing && r.state == ss[|ss| - 1] &&
      r.pending == (if m.syncing then Some(Serialize(ss[|ss| - 1], c)) else m.pending)
    decreases |ss|
  {
    var m' := Step(m, Change(ss[0]), browser, c);
    assert Changes(ss)[1..] == Changes(ss[1..]);
    if |ss| > 1 {
      ChangesOnly(m', ss[1..], browser, c);
    } else {
      assert Changes(ss[1..]) == [];
    }
  }

  /** Debouncing: however many assignments come before the timer expires,
      only the last state's token is written, and only if it is short enough. */
  lemma Coalesce(m: Sync, ss: seq<AppState>, browser: bool, c: Codec)
    requires m.syncing && ss != []
    ensures var t := Serialize(ss[|ss| - 1], c);
      Run(m, Changes(ss) + [TimerFire], browser, c)
      == m.(state := ss[|ss| - 1], pending := None, fragment := if |t| <= MaxUrlSize then t else m.fragment)
  {
    RunAppend(m, Changes(ss), [TimerFire], browser, c);
    ChangesOnly(m, ss, browser, c);
  }

  /** Reloading the page with a fragment the store wrote brings back the
      state it was written from. */
  lemma ReloadRestores(s: AppState, c: Codec)
    requires Lossless(c)
    ensures Step(Load(Serialize(s, c)), Init, true, c).state == s
  {
    var t := Serialize(s, c);
    SerializeShape(s, c);
    DeserializeSerialize(s, c);
    assert LocationHash(t) == "#" + t;
  }

  /** A state whose token is too long is never written: the fragment keeps
      whatever it held. */
  lemma TooLongNotWritten(m: Sync, browser: bool, c: Codec)
    requires Inv(m, browser, c) && m.pending.Some?
    requires |Serialize(m.state, c)| > MaxUrlSize
    ensures Step(m, TimerFire, browser, c).fragment == m.fragment
  {
  }

  /** An empty fragment restores nothing: the start-up state stays. */
  lemma EmptyFragmentRestoresNothing(s: AppState, c: Codec)
    ensures Restore(s, "", c) == s
  {
  }

  /** The store: the reactive state object, the armed timer and the location,
      mutated in place by its operations. */
  class UrlStore {
    var code: string
    var positions: PositionMap
    var themeId: int
    var directionId: int
    var pending: Option<string>
    var fragment: string
    var syncing: bool
    /** Exported next to the state; never set by the store. */
    var isTooLarge: bool
    const browser: bool
    const codec: Codec

    function State(): AppState
      reads this
    {
      AppState(code, positions, themeId, directionId)
    }

    function Model(): Sync
      reads this
    {
      Sync(State(), pending, fragment, syncing)
    }

    constructor(browser: bool, fragment: string, codec: Codec)
      ensures Model() == Load(fragment)
      ensures this.browser == browser && this.codec == codec && !isTooLarge
    {
      code := DefaultCode;
      positions := map[];
      themeId := 0;
      directionId := 0;
      pending := None;
      this.fragment := fragment;
      syncing := false;
      isTooLarge := false;
      this.browser := browser;
      this.codec := codec;
    }

    /** The fields a restored token carries replace the current ones. */
    method Adopt(r: Restored)
      modifies this
      ensures State() == Merge(old(State()), r)
      ensures pending == old(pending) && fragment == old(fragment) && syncing == old(syncing)
      ensures isTooLarge == old(isTooLarge)
    {
      code := r.code.GetOr(code);
      if r.positions.Some? {
        positions := r.positions.value;
      }
      themeId := r.themeId.GetOr(themeId);
      directionId := r.directionId.GetOr(directionId);
    }

    /** The restore step of `init()`: a non-empty hash that deserializes
        replaces the fields it carries; nothing else changes. */
    method RestoreFromHash()
      modifies this
      ensures State() == Restore(old(State()), fragment, codec)
      ensures pending == old(pending) && fragment == old(fragment) && syncing == old(syncing)
      ensures isTooLarge == old(isTooLarge)
    {
      var hash := LocationHash(fragment);
      if hash != "" {
        var restored := Deserialize(hash, codec);
        if restored.Some? {
          Adopt(restored.value);
        }
      }
    }

    /** `init()` */
    method Init()
      modifies this
      ensures Model() == Step(old(Model()), Event.Init, browser, codec)
      ensures isTooLarge == old(isTooLarge)
    {
      if !browser {
        return;
      }
      RestoreFromHash();
      syncing := true;
      pending := Some(Serialize(State(), codec));
    }

    /** The application assigns the state; a started effect re-arms the timer. */
    method Assign(next: AppState)
      modifies this
      ensures Model() == Step(old(Model()), Change(next), browser, codec)
      ensures isTooLarge == old(isTooLarge)
    {
      code, positions, themeId, directionId := next.code, next.positions, next.themeId, next.directionId;
      if syncing {
        pending := Some(Serialize(next, codec));
      }
    }

    /** The armed timer expires. */
    method TimerFire()
      modifies this
      ensures Model() == Step(old(Model()), Event.TimerFire, browser, codec)
      ensures isTooLarge == old(isTooLarge)
    {
      if pending.Some? {
        var t := pending.value;
        pending := None;
        if |t| <= MaxUrlSize {
          fragment := t;
        }
      }
    }
  }
}
