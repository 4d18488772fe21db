/**
 Desktop-global hotkeys. A hotkey is acquired as four passive key grabs, one for each state of the two
 lock modifiers, all or none, from a server that may refuse any of them.
 */
module GlobalHotkeys {
  import opened Outcomes
  import Text

  type Mask = bv16

  const SHIFT: Mask := 1
  const CONTROL: Mask := 4
  const ALT: Mask := 8
  const SUPER: Mask := 64
  const BAD_ACCESS := 10

  datatype HotkeyError =
    | EmptyAccelerator
    | UnsupportedModifier(token: string)
    | ListenerRunning
    | UnknownKeysym(key: string)
    | NoKeycode(key: string)
    | Conflict
    | AlreadyReserved
    | Rejected

  // ----- accelerators

  datatype Accelerator = Accelerator(key: string, modifiers: Mask)

  function ModifierMask(token: string): Option<Mask> {
    match Text.Fold(token)
    case "shift" => Some(SHIFT)
    case "control" => Some(CONTROL)
    case "ctrl" => Some(CONTROL)
    case "alt" => Some(ALT)
    case "mod1" => Some(ALT)
    case "super" => Some(SUPER)
    case "meta" => Some(SUPER)
    case "mod4" => Some(SUPER)
    case _ => None
  }

  function CombinedMask(tokens: seq<string>): Result<Mask, HotkeyError> {
    if tokens == [] then Success(0)
    else
      var before := CombinedMask(tokens[..|tokens| - 1]);
      var mask := ModifierMask(tokens[|tokens| - 1]);
      if before.Failure? then before
      else if mask.None? then Failure(UnsupportedModifier(tokens[|tokens| - 1]))
      else Success(before.value | mask.value)
  }

  function Tokens(value: string): seq<string> {
    Filter(Map(Text.Split(value, '+'), Text.Strip), (token: string) => token != "")
  }

  function Parsed(value: string): Result<Accelerator, HotkeyError> {
    var parts := Tokens(value);
    if parts == [] then Failure(EmptyAccelerator)
    else
      var key := parts[|parts| - 1];
      var mask := CombinedMask(parts[..|parts| - 1]);
      if mask.Failure? then Failure(mask.error)
      else Success(Accelerator(if |key| > 1 then key else Text.Fold(key), mask.value))
  }

  method ParseAccelerator(value: string) returns (r: Result<Accelerator, HotkeyError>)
    ensures r == Parsed(value)
    ensures r.Failure? <==>
      || Tokens(value) == []
      || exists i | 0 <= i < |Tokens(value)| - 1 :: ModifierMask(Tokens(value)[i]).None?
    ensures r.Success? ==> LockFree(r.value.modifiers)
  {
    hide ModifierMask, Tokens, LockFree;
    var parts := Tokens(value);
    if parts == [] {
      return Failure(EmptyAccelerator);
    }
    var key := parts[|parts| - 1];
    var tokens := parts[..|parts| - 1];
    var modifiers: Mask := 0;
    CombinedMaskFailsIff(tokens);
    for i := 0 to |tokens|
      invariant CombinedMask(tokens[..i]) == Success(modifiers)
    {
      assert tokens[..i + 1][..i] == tokens[..i];
      var mask := ModifierMask(tokens[i]);
      if mask.None? {
        CombinedMaskFails(tokens, i + 1);
        return Failure(UnsupportedModifier(tokens[i]));
      }
      modifiers := modifiers | mask.value;
    }
    assert tokens[..|tokens|] == tokens;
    CombinedMaskLockFree(tokens);
    return Success(Accelerator(if |key| > 1 then key else Text.Fold(key), modifiers));
  }

  lemma {:induction false} CombinedMaskFailsIff(tokens: seq<string>)
    ensures CombinedMask(tokens).Failure? <==> exists i | 0 <= i < |tokens| :: ModifierMask(tokens[i]).None?
  {
    hide ModifierMask;
    if tokens != [] {
      CombinedMaskFailsIff(tokens[..|tokens| - 1]);
    }
  }

  lemma {:induction false} CombinedMaskFails(tokens: seq<string>, i: nat)
    requires i <= |tokens| && CombinedMask(tokens[..i]).Failure?
    ensures CombinedMask(tokens) == CombinedMask(tokens[..i])
  {
    if i < |tokens| {
      assert tokens[..|tokens| - 1][..i] == tokens[..i];
      CombinedMaskFails(tokens[..|tokens| - 1], i);
    } else {
      assert tokens[..i] == tokens;
    }
  }

  /** Which names stand for which modifier, case aside. */
  predicate Names(token: string, bit: Mask) {
    var folded := Text.Fold(token);
    if bit == 1 then folded == "shift"
    else if bit == 4 then folded == "control" || folded == "ctrl"
    else if bit == 8 then folded == "alt" || folded == "mod1"
    else if bit == 64 then folded == "super" || folded == "meta" || folded == "mod4"
    else false
  }

  lemma ModifierMaskIff(token: string, bit: Mask)
    ensures ModifierMask(token) == Some(bit) <==> Names(token, bit)
  {
  }

  /** A combined mask has exactly the modifiers that some token names, and fails at the first token that names none. */
  lemma {:induction false} CombinedMaskIs(tokens: seq<string>)
    ensures CombinedMask(tokens).Success? ==>
      var m := CombinedMask(tokens).value;
      && (m & 1 != 0 <==> exists i :: 0 <= i < |tokens| && Names(tokens[i], 1))
      && (m & 4 != 0 <==> exists i :: 0 <= i < |tokens| && Names(tokens[i], 4))
      && (m & 8 != 0 <==> exists i :: 0 <= i < |tokens| && Names(tokens[i], 8))
      && (m & 64 != 0 <==> exists i :: 0 <= i < |tokens| && Names(tokens[i], 64))
      && m & 0xFFB2 == 0
    ensures CombinedMask(tokens).Failure? ==>
      exists i | 0 <= i < |tokens| :: CombinedMask(tokens).error == UnsupportedModifier(tokens[i])
        && (forall bit :: !Names(tokens[i], bit)) && forall j | 0 <= j < i :: ModifierMask(tokens[j]).Some?
  {
    hide Names, ModifierMask;
    if tokens != [] {
      var init, last := tokens[..|tokens| - 1], tokens[|tokens| - 1];
      CombinedMaskIs(init);
      CombinedMaskFailsIff(init);
      forall bit ensures ModifierMask(last) == Some(bit) <==> Names(last, bit) {
        ModifierMaskIff(last, bit);
      }
      assert forall i | 0 <= i < |init| :: init[i] == tokens[i];
      if CombinedMask(tokens).Success? {
        NamesOneBit(last, ModifierMask(last).value);
        BitsOfUnion(CombinedMask(init).value, ModifierMask(last).value);
      }
    }
  }

  lemma NamesOneBit(token: string, bit: Mask)
    requires Names(token, bit)
    ensures bit == 1 || bit == 4 || bit == 8 || bit == 64
    ensures forall other :: Names(token, other) ==> other == bit
  {
  }

  lemma BitsOfUnion(m: Mask, bit: Mask)
    requires bit == 1 || bit == 4 || bit == 8 || bit == 64
    ensures (m | bit) & 1 != 0 <==> m & 1 != 0 || bit == 1
    ensures (m | bit) & 4 != 0 <==> m & 4 != 0 || bit == 4
    ensures (m | bit) & 8 != 0 <==> m & 8 != 0 || bit == 8
    ensures (m | bit) & 64 != 0 <==> m & 64 != 0 || bit == 64
    ensures m & 0xFFB2 == 0 ==> (m | bit) & 0xFFB2 == 0
  {
  }

  /** The tokens of a text: what stands before the first plus, if anything does, and then those of the rest. */
  lemma TokensSplit(head: string, tail: string)
    requires '+' !in head
    ensures var first := if Text.Strip(head) == "" then [] else [Text.Strip(head)];
      Tokens(head) == first && Tokens(head + "+" + tail) == first + Tokens(tail)
  {
    hide Text.Strip;
    Text.SplitAtFirst(head, '+', tail);
    assert head + "+" + tail == head + ['+'] + tail;
    var notEmpty := (token: string) => token != "";
    var rest := Text.Split(tail, '+');
    assert [head][1..] == [] && ([head] + rest)[1..] == rest;
    assert Map([head], Text.Strip) == [Text.Strip(head)];
    assert Map([head] + rest, Text.Strip) == [Text.Strip(head)] + Map(rest, Text.Strip);
    FilterAppend([Text.Strip(head)], Map(rest, Text.Strip), notEmpty);
    assert [Text.Strip(head)][1..] == [];
  }

  /** The key is the last token, a single letter folded; all before it are modifiers. */
  lemma ParsedIs(value: string)
    ensures var (r, parts) := (Parsed(value), Tokens(value));
      && (parts == [] <==> r == Failure(EmptyAccelerator))
      && (r.Success? ==>
            var last := parts[|parts| - 1];
            && r.value.key == (if |last| == 1 then Text.Fold(last) else last)
            && CombinedMask(parts[..|parts| - 1]) == Success(r.value.modifiers))
      && (parts != [] && r.Failure? ==> CombinedMask(parts[..|parts| - 1]) == Failure(r.error))
  {
    hide Text.Strip, Text.Split, Text.Fold;
    var parts := Tokens(value);
    if parts != [] {
      CombinedMaskIs(parts[..|parts| - 1]);
      assert parts[|parts| - 1] in parts;
      FilterMember(Map(Text.Split(value, '+'), Text.Strip), (token: string) => token != "", parts[|parts| - 1]);
    }
  }

  lemma ParsedErrors(value: string)
    ensures Parsed(value).Failure? ==> Parsed(value).error.EmptyAccelerator? || Parsed(value).error.UnsupportedModifier?
  {
    ParsedIs(value);
    var parts := Tokens(value);
    if parts != [] {
      CombinedMaskIs(parts[..|parts| - 1]);
    }
  }

  // ----- lock modifiers

  // The masks below are written out: 2 is LOCK, 16 is NUM_LOCK, 0xFFED is everything but these two.

  predicate LockFree(m: Mask) {
    m & 2 == 0 && m & 16 == 0
  }

  /** No accelerator mentions a lock modifier. */
  lemma {:induction false} CombinedMaskLockFree(tokens: seq<string>)
    requires CombinedMask(tokens).Success?
    ensures LockFree(CombinedMask(tokens).value)
  {
    if tokens != [] {
      CombinedMaskLockFree(tokens[..|tokens| - 1]);
      LockFreeUnion(CombinedMask(tokens[..|tokens| - 1]).value, ModifierMask(tokens[|tokens| - 1]).value);
    }
  }

  lemma LockFreeUnion(a: Mask, b: Mask)
    requires LockFree(a) && LockFree(b)
    ensures LockFree(a | b)
  {
  }

  /** `dict.fromkeys`: the elements of a list, each once, in order of first occurrence. */
  function Distinct(s: seq<Mask>): (r: seq<Mask>)
    ensures forall m :: m in r <==> m in s
    ensures forall i, j | 0 <= i < j < |r| :: r[i] != r[j]
  {
    if s == [] then []
    else
      var before := Distinct(s[..|s| - 1]);
      assert s == s[..|s| - 1] + [s[|s| - 1]];
      if s[|s| - 1] in before then before else before + [s[|s| - 1]]
  }

  function LockVariants(modifiers: Mask): seq<Mask> {
    Distinct([modifiers, modifiers | 2, modifiers | 16, modifiers | 2 | 16])
  }

  function NormalizedState(state: Mask): Mask {
    state & 0xFFED
  }

  lemma LockBits(m: Mask, v: Mask)
    requires LockFree(m)
    ensures NormalizedState(v) == m ==> v == m || v == m | 2 || v == m | 16 || v == m | 2 | 16
    ensures NormalizedState(m) == NormalizedState(m | 2) == NormalizedState(m | 16) == NormalizedState(m | 2 | 16) == m
  {
  }

  /** The variants of a lock-free mask are exactly the states that normalize to it. */
  lemma VariantsNormalize(m: Mask, v: Mask)
    requires LockFree(m)
    ensures v in LockVariants(m) <==> NormalizedState(v) == m
  {
    hide NormalizedState, LockFree, LockVariants;
    VariantMembers(m, v);
    LockBits(m, v);
  }

  lemma VariantMembers(m: Mask, v: Mask)
    ensures v in LockVariants(m) <==> v == m || v == m | 2 || v == m | 16 || v == m | 2 | 16
  {
    hide Distinct;
    FourMembers(v, m, m | 2, m | 16, m | 2 | 16);
  }

  lemma FourMembers(v: Mask, a: Mask, b: Mask, c: Mask, d: Mask)
    ensures v in Distinct([a, b, c, d]) <==> v == a || v == b || v == c || v == d
  {
  }

  // ----- the server

  /** The X server as one client sees it. It may answer any request for a grab with any error. */
  class XServer {
    const keysymOf: string -> int
    const keycodeOf: int -> int
    const verdict: (nat, int, Mask) -> int  // the error code for each request in turn, 0 for none
    var requests: nat
    var held: set<(int, Mask)>
    var handler: int

    constructor (keysymOf: string -> int, keycodeOf: int -> int, verdict: (nat, int, Mask) -> int, handler: int)
      ensures held == {} && requests == 0 && this.handler == handler
      ensures this.keysymOf == keysymOf && this.keycodeOf == keycodeOf && this.verdict == verdict
    {
      this.keysymOf, this.keycodeOf, this.verdict := keysymOf, keycodeOf, verdict;
      this.handler := handler;
      requests, held := 0, {};
    }

    method GrabKey(keycode: int, modifiers: Mask) returns (code: int)
      modifies this`held, this`requests
      ensures code == verdict(old(requests), keycode, modifiers) && requests == old(requests) + 1
      ensures held == if code == 0 then old(held) + {(keycode, modifiers)} else old(held)
    {
      code := verdict(requests, keycode, modifiers);
      requests := requests + 1;
      if code == 0 {
        held := held + {(keycode, modifiers)};
      }
    }

    method UngrabKey(keycode: int, modifiers: Mask)
      modifies this`held
      ensures held == old(held) - {(keycode, modifiers)}
    {
      held := held - {(keycode, modifiers)};
    }

    /** The key and modifiers an accelerator stands for on this server. */
    function Identity(accelerator: string): Result<(int, Mask), HotkeyError> {
      var parsed := Parsed(accelerator);
      if parsed.Failure? then Failure(parsed.error)
      else if keysymOf(parsed.value.key) == 0 then Failure(UnknownKeysym(parsed.value.key))
      else if keycodeOf(keysymOf(parsed.value.key)) == 0 then Failure(NoKeycode(parsed.value.key))
      else Success((keycodeOf(keysymOf(parsed.value.key)), parsed.value.modifiers))
    }

    /** It stands for a key if it parses, its key has a symbol, and the symbol a key code; the first of these that fails is the error. */
    lemma IdentityIs(accelerator: string)
      ensures var (r, parsed) := (Identity(accelerator), Parsed(accelerator));
        && (r.Success? <==> parsed.Success? && keysymOf(parsed.value.key) != 0 && keycodeOf(keysymOf(parsed.value.key)) != 0)
        && (r.Success? ==> r.value.0 == keycodeOf(keysymOf(parsed.value.key)) && r.value.1 == parsed.value.modifiers)
        && (r.Failure? ==> match r.error
              case UnknownKeysym(key) => parsed.Success? && key == parsed.value.key && keysymOf(key) == 0
              case NoKeycode(key) => parsed.Success? && key == parsed.value.key && keysymOf(key) != 0 && keycodeOf(keysymOf(key)) == 0
              case error => parsed == Failure(error))
    {
      hide Parsed;
      ParsedErrors(accelerator);
    }

    method Resolve(accelerator: string) returns (r: Result<(int, Mask), HotkeyError>)
      ensures r == Identity(accelerator)
      ensures r.Success? ==> LockFree(r.value.1)
    {
      hide Parsed, LockFree;
      var parsed := ParseAccelerator(accelerator);
      if parsed.Failure? {
        return Failure(parsed.error);
      }
      var keysym := keysymOf(parsed.value.key);
      if keysym == 0 {
        return Failure(UnknownKeysym(parsed.value.key));
      }
      var keycode := keycodeOf(keysym);
      if keycode == 0 {
        return Failure(NoKeycode(parsed.value.key));
      }
      return Success((keycode, parsed.value.modifiers));
    }

    /** From now on the server grants the key with all these modifiers in turn. */
    predicate Grants(from: nat, keycode: int, variants: seq<Mask>) {
      forall i | 0 <= i < |variants| :: verdict(from + i, keycode, variants[i]) == 0
    }
  }

  const KEY_PRESS := 2

  datatype Event = Event(kind: int, keycode: int, state: Mask) {
    function Identity(): (int, Mask) {
      (keycode, NormalizedState(state))
    }
  }

  /** The key presses, events of kind 2, that these grabs deliver. */
  function Grabbing(held: set<(int, Mask)>): Event -> bool {
    (e: Event) => e.kind == 2 && (e.keycode, e.state) in held
  }

  function Grabs(keycode: int, variants: seq<Mask>): set<(int, Mask)> {
    set m | m in variants :: (keycode, m)
  }

  // ----- the backend

  class X11GlobalHotkeyBackend {
    const server: XServer
    var registered: map<(int, Mask), string>
    var grabbed: seq<(int, Mask)>
    var errorCode: int
    var listening: bool
    var closed: bool

    /** What is held is exactly the lock variants of what is registered. */
    ghost predicate Valid()
      reads this, server
    {
      && (forall g | g in grabbed :: g in server.held) && (forall g | g in server.held :: g in grabbed)
      && (forall identity | identity in registered :: LockFree(identity.1))
      && if closed then server.held == {}
         else forall k, s :: (k, s) in server.held <==> (k, NormalizedState(s)) in registered
    }

    constructor (server: XServer)
      requires server.held == {}
      ensures Valid() && this.server == server && registered == map[] && !listening && !closed
    {
      this.server := server;
      registered, grabbed, errorCode := map[], [], 0;
      listening, closed := false, false;
    }

    method Rollback(keycode: int, grabbedNow: seq<Mask>)
      modifies server`held
      ensures server.held == old(server.held) - Grabs(keycode, grabbedNow)
    {
      for k := 0 to |grabbedNow|
        invariant server.held == old(server.held) - Grabs(keycode, grabbedNow[..k])
      {
        assert grabbedNow[..k + 1] == grabbedNow[..k] + [grabbedNow[k]];
        GrabsSplit(keycode, grabbedNow[k], grabbedNow[..k]);
        server.UngrabKey(keycode, grabbedNow[k]);
      }
      assert grabbedNow[..|grabbedNow|] == grabbedNow;
    }

    /** The error that the first refused request gives: whether the grab was reserved already, or rejected otherwise. */
    predicate Refusal(from: nat, keycode: int, variants: seq<Mask>, error: HotkeyError) {
      exists i | 0 <= i < |variants| :: var code := server.verdict(from + i, keycode, variants[i]);
        && code != 0 && error == (if code == 10 then AlreadyReserved else Rejected)
        && forall j | 0 <= j < i :: server.verdict(from + j, keycode, variants[j]) == 0
    }

    /** Grabs a key with each of the variants in turn; at the first refusal releases what it got and stops. */
    method Acquire(keycode: int, variants: seq<Mask>) returns (r: Result<seq<Mask>, HotkeyError>)
      requires Grabs(keycode, variants) !! server.held
      modifies this`errorCode, server
      ensures r.Success? <==> old(server.Grants(server.requests, keycode, variants))
      ensures r.Success? ==> r.value == variants && server.held == old(server.held) + Grabs(keycode, variants)
      ensures r.Failure? ==> server.held == old(server.held) && Refusal(old(server.requests), keycode, variants, r.error)
      ensures server.handler == old(server.handler)
    {
      hide Grabs;
      var oldHandler := server.handler;
      server.handler := 1;
      var grabbedNow: seq<Mask> := [];
      assert Grabs(keycode, []) == {} by { GrabsNone(keycode); }
      ghost var before := server.held;
      ghost var start := server.requests;
      for i := 0 to |variants|
        invariant grabbedNow == variants[..i]
        invariant server.held == before + Grabs(keycode, grabbedNow) && server.requests == start + i
        invariant forall j | 0 <= j < i :: server.verdict(start + j, keycode, variants[j]) == 0
      {
        errorCode := 0;
        errorCode := server.GrabKey(keycode, variants[i]);
        if errorCode != 0 {
          assert !old(server.Grants(server.requests, keycode, variants));
          Rollback(keycode, grabbedNow);
          GrabsPrefix(keycode, variants, i);
          assert server.held == before;
          server.handler := oldHandler;
          assert Refusal(start, keycode, variants, if errorCode == BAD_ACCESS then AlreadyReserved else Rejected);
          return Failure(if errorCode == BAD_ACCESS then AlreadyReserved else Rejected);
        }
        GrabsSplit(keycode, variants[i], grabbedNow);
        assert variants[..i + 1] == variants[..i] + [variants[i]];
        grabbedNow := grabbedNow + [variants[i]];
      }
      server.handler := oldHandler;
      return Success(grabbedNow);
    }

    /** The accelerator stands for a free key that the server grants with all lock variants. */
    predicate CanRegister(accelerator: string)
      reads this, server
    {
      && !listening && server.Identity(accelerator).Success?
      && var identity := server.Identity(accelerator).value;
         identity !in registered && server.Grants(server.requests, identity.0, LockVariants(identity.1))
    }

    /** Registering either adds one identity with its four grabs or changes nothing at all. */
    method Register(action: string, accelerator: string) returns (r: Result<(int, Mask), HotkeyError>)
      requires Valid() && !closed
      modifies this`registered, this`grabbed, this`errorCode, server
      ensures Valid()
      ensures r.Success? <==> old(CanRegister(accelerator))
      ensures r.Success? ==>
        var identity := server.Identity(accelerator).value;
        && r.value == identity && identity !in old(registered) && registered == old(registered)[identity := action]
        && server.held == old(server.held) + Grabs(identity.0, LockVariants(identity.1))
      ensures r.Failure? ==> registered == old(registered) && grabbed == old(grabbed) && server.held == old(server.held)
      ensures r.Failure? ==>
        var identity := server.Identity(accelerator);
        if listening then r.error == ListenerRunning
        else if identity.Failure? then r.error == identity.error
        else if identity.value in old(registered) then r.error == Conflict
        else Refusal(old(server.requests), identity.value.0, LockVariants(identity.value.1), r.error)
      ensures server.handler == old(server.handler)
    {
      hide LockFree, LockVariants, NormalizedState, Grabs, GrabList, server.Identity, server.Grants, Refusal;
      if listening {
        return Failure(ListenerRunning);
      }
      r := server.Resolve(accelerator);
      if r.Failure? {
        return;
      }
      var identity := r.value;
      if identity in registered {
        return Failure(Conflict);
      }
      var variants := LockVariants(identity.1);
      GrabsAreIdentity(identity.0, identity.1);
      HeldInStep(server.held, registered, Grabs(identity.0, variants), identity, action);
      var acquired := Acquire(identity.0, variants);
      if acquired.Failure? {
        return Failure(acquired.error);
      }
      registered := registered[identity := action];
      GrabsInOrder(identity.0, acquired.value);
      grabbed := grabbed + GrabList(identity.0, acquired.value);
    }

    /** The action for a key event, by key and state without the lock modifiers. */
    function Dispatch(keycode: int, state: Mask): (action: Option<string>)
      reads this
    {
      var identity := (keycode, NormalizedState(state));
      if identity in registered then Some(registered[identity]) else None
    }

    /** While grabs are held, the events they deliver are exactly those that have an action. */
    lemma HeldGrabsDispatch(keycode: int, state: Mask)
      requires Valid() && !closed
      ensures Dispatch(keycode, state).Some? <==> (keycode, state) in server.held
    {
    }

    /**
     The listener's loop over the events it gets: the callback is called, in order, for exactly the key presses
     that a held grab delivers, each time with the action registered for the grab.
     */
    method Run(events: seq<Event>) returns (delivered: seq<string>)
      requires Valid() && !closed
      ensures var answered := Filter(events, Grabbing(server.held));
        && |delivered| == |answered|
        && forall i | 0 <= i < |answered| ::
             && answered[i].Identity() in registered
             && delivered[i] == registered[answered[i].Identity()]
    {
      hide NormalizedState;
      delivered := [];
      ghost var answered: seq<Event> := [];
      for k := 0 to |events|
        invariant answered == Filter(events[..k], Grabbing(server.held))
        invariant |delivered| == |answered|
        invariant forall i | 0 <= i < |answered| ::
          answered[i].Identity() in registered && delivered[i] == registered[answered[i].Identity()]
      {
        var event := events[k];
        assert events[..k + 1] == events[..k] + [event];
        FilterAppend(events[..k], [event], Grabbing(server.held));
        if event.kind != KEY_PRESS {
          continue;
        }
        HeldGrabsDispatch(event.keycode, event.state);
        var action := Dispatch(event.keycode, event.state);
        if action.Some? {
          delivered := delivered + [action.value];
          answered := answered + [event];
        }
      }
      assert events[..|events|] == events;
    }

    method Start()
      requires Valid()
      modifies this`listening
      ensures Valid() && listening
    {
      listening := true;
    }

    /** Stopping releases every grab; stopping again does nothing. */
    method Stop()
      requires Valid()
      modifies this`grabbed, this`listening, this`closed, server`held
      ensures Valid() && closed && server.held == {}
      ensures old(closed) ==> grabbed == old(grabbed) && listening == old(listening)
      ensures !old(closed) ==> grabbed == [] && !listening
    {
      if closed {
        return;
      }
      listening := false;
      for i := 0 to |grabbed|
        invariant grabbed == old(grabbed) && !listening
        invariant server.held == old(server.held) - set g | g in grabbed[..i]
      {
        assert grabbed[..i + 1] == grabbed[..i] + [grabbed[i]];
        server.UngrabKey(grabbed[i].0, grabbed[i].1);
      }
      assert grabbed[..|grabbed|] == grabbed;
      assert server.held == {};
      grabbed := [];
      closed := true;
    }
  }

  lemma GrabsNone(keycode: int)
    ensures Grabs(keycode, []) == {}
  {
  }

  /** The grabs of an identity are the states that normalize to it. */
  lemma GrabsAreIdentity(keycode: int, modifiers: Mask)
    requires LockFree(modifiers)
    ensures forall k, s :: (k, s) in Grabs(keycode, LockVariants(modifiers)) <==> k == keycode && NormalizedState(s) == modifiers
  {
    hide LockFree, LockVariants, NormalizedState;
    forall s ensures s in LockVariants(modifiers) <==> NormalizedState(s) == modifiers {
      VariantsNormalize(modifiers, s);
    }
  }

  function GrabList(keycode: int, variants: seq<Mask>): seq<(int, Mask)> {
    seq(|variants|, i requires 0 <= i < |variants| => (keycode, variants[i]))
  }

  lemma GrabsInOrder(keycode: int, variants: seq<Mask>)
    ensures forall g :: g in Grabs(keycode, variants) <==> g in GrabList(keycode, variants)
  {
    var listed := GrabList(keycode, variants);
    forall g | g in Grabs(keycode, variants) ensures g in listed {
      var i :| 0 <= i < |variants| && variants[i] == g.1;
      assert listed[i] == g;
    }
    forall g | g in listed ensures g in Grabs(keycode, variants) {
      var i :| 0 <= i < |listed| && listed[i] == g;
      var m := variants[i];
      assert m in variants && g == (keycode, m);
    }
  }

  /** Holding one more identity's states keeps what is held in step with what is registered. */
  lemma HeldInStep(held: set<(int, Mask)>, registered: map<(int, Mask), string>, added: set<(int, Mask)>, identity: (int, Mask), action: string)
    requires forall k, s :: (k, s) in held <==> (k, NormalizedState(s)) in registered
    requires forall k, s :: (k, s) in added <==> k == identity.0 && NormalizedState(s) == identity.1
    requires identity !in registered
    ensures added !! held
    ensures forall k, s :: (k, s) in held + added <==> (k, NormalizedState(s)) in registered[identity := action]
  {
    hide NormalizedState;
    forall g | g in added ensures g !in held {
      var (k, s) := g;
      assert (k, s) in added && (k, NormalizedState(s)) == identity;
    }
  }

  lemma GrabsPrefix(keycode: int, variants: seq<Mask>, i: nat)
    requires i <= |variants|
    ensures Grabs(keycode, variants[..i]) <= Grabs(keycode, variants)
  {
  }

  lemma GrabsSplit(keycode: int, first: Mask, rest: seq<Mask>)
    ensures Grabs(keycode, [first] + rest) == Grabs(keycode, rest + [first]) == {(keycode, first)} + Grabs(keycode, rest)
  {
  }

  // ----- the service

  /** Registers every configured hotkey it can, remembers why the others failed, and listens if it has any. */
  class GlobalHotkeyService {
    const backend: X11GlobalHotkeyBackend
    const bindings: seq<(string, string)>
    var errors: map<string, HotkeyError>
    var registered: map<string, string>
    var started: bool

    constructor (backend: X11GlobalHotkeyBackend, bindings: seq<(string, string)>)
      ensures this.backend == backend && this.bindings == bindings && !started
      ensures errors == map[] && registered == map[]
    {
      this.backend, this.bindings := backend, bindings;
      errors, registered, started := map[], map[], false;
    }

    /** The service's record agrees with the backend: an action is registered in both or in neither. */
    ghost predicate Consistent()
      reads this, backend, backend.server
    {
      && backend.Valid() && !backend.closed
      && (forall identity | identity in backend.registered :: backend.registered[identity] in registered)
      && (forall action | action in registered :: action in backend.registered.Values)
    }

    method TryRegister(action: string, accelerator: string)
      requires Consistent()
      modifies this`errors, this`registered, backend, backend.server
      ensures Consistent() && backend.listening == old(backend.listening)
      ensures backend.server.handler == old(backend.server.handler)
      ensures old(backend.CanRegister(accelerator)) ==>
        && errors == old(errors) && registered == old(registered)[action := accelerator]
        && exists identity :: identity in backend.registered && backend.registered == old(backend.registered)[identity := action]
      ensures !old(backend.CanRegister(accelerator)) ==>
        && registered == old(registered) && backend.registered == old(backend.registered)
        && action in errors && errors == old(errors)[action := errors[action]]
      ensures errors.Keys >= old(errors.Keys) && registered.Keys >= old(registered.Keys)
      ensures errors.Keys + registered.Keys == old(errors.Keys + registered.Keys) + {action}
    {
      hide backend.Valid, backend.CanRegister, backend.server.Identity, backend.server.Grants, backend.Refusal, LockVariants, Grabs;
      var r := backend.Register(action, accelerator);
      if r.Failure? {
        errors := errors[action := r.error];
      } else {
        registered := registered[action := accelerator];
        ValuesKept(old(backend.registered), r.value, action);
      }
    }

    /** Whatever the server refuses, the run ends with exactly the grabs of what was registered. */
    method Start()
      requires Consistent()
      modifies this, backend, backend.server
      ensures Consistent() && started && backend.server.handler == old(backend.server.handler)
      ensures old(started) ==> errors == old(errors) && registered == old(registered) && backend.listening == old(backend.listening)
      ensures !old(started) ==>
        && errors.Keys + registered.Keys == old(errors.Keys + registered.Keys) + (set b | b in bindings :: b.0)
        && (backend.listening <==> old(backend.listening) || registered != map[])
    {
      hide backend.Valid;
      if started {
        return;
      }
      RegisterBindings();
      if registered != map[] {
        backend.Start();
      }
      started := true;
    }

    method RegisterBindings()
      requires Consistent()
      modifies this`errors, this`registered, backend, backend.server
      ensures Consistent() && backend.listening == old(backend.listening)
      ensures backend.server.handler == old(backend.server.handler)
      ensures errors.Keys + registered.Keys == old(errors.Keys + registered.Keys) + (set b | b in bindings :: b.0)
    {
      hide Consistent;
      for i := 0 to |bindings|
        invariant Consistent() && backend.listening == old(backend.listening)
        invariant backend.server.handler == old(backend.server.handler)
        invariant errors.Keys + registered.Keys == old(errors.Keys + registered.Keys) + (set b | b in bindings[..i] :: b.0)
      {
        assert bindings[..i + 1] == bindings[..i] + [bindings[i]];
        TryRegister(bindings[i].0, bindings[i].1);
      }
      assert bindings[..|bindings|] == bindings;
    }

    method Stop()
      requires backend.Valid()
      modifies this`started, backend, backend.server
      ensures backend.Valid() && backend.closed && backend.server.held == {} && !started
    {
      backend.Stop();
      started := false;
    }
  }

  lemma ValuesKept(m: map<(int, Mask), string>, k: (int, Mask), v: string)
    requires k !in m
    ensures m[k := v].Values == m.Values + {v}
  {
    assert k in m[k := v];
    forall w | w in m.Values ensures w in m[k := v].Values {
      var j :| j in m && m[j] == w;
      assert j in m[k := v];
    }
  }
}
