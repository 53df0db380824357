/**
  What a console variable holds and how setting it (Cvar_Set2) and registering it again (Cvar_Get of
  Shared/cvar.c) change that.
 */
module CvarState {
  import opened Options

  /** The bits of a flag word */
  datatype Flag = Archive | UserInfo | ServerInfo | SystemInfo | Init | Latch | Rom | UserCreated | Temp | Cheat |
                  NoRestart | ServerCreated | VmCreated

  /** What Cvar_CheckRange left: a value and the default give the value to take instead. */
  datatype Limits = Unchecked | Checked(clean: (string, string) -> string)

  /** The fields of a cvar_t that are no links; value and integer are those of the text. */
  datatype State = State(text: string, reset: string, latched: Option<string>, flags: set<Flag>, modified: bool,
                         count: nat, limits: Limits)

  const CLEARED := State("", "", None, {}, false, 0, Unchecked)

  /** Cvar_Validate */
  function Validated(s: State, value: string): string {
    match s.limits
    case Unchecked => value
    case Checked(clean) => clean(value, s.reset)
  }

  /** Cvar_Set2 finds nothing to do. */
  predicate IsSet(s: State, v: string) {
    v == s.text || (Latch in s.flags && s.latched == Some(v))
  }

  /** Setting is refused. */
  predicate IsProtected(s: State, cheats: bool) {
    Rom in s.flags || Init in s.flags || (Cheat in s.flags && !cheats)
  }

  function Changed(s: State, v: string): State {
    s.(text := v, modified := true, count := s.count + 1)
  }

  /** The variable after Cvar_Set2 */
  function SetTo(s: State, value: string, force: bool, cheats: bool): State {
    var v := Validated(s, value);
    if IsSet(s, v) then
      (if v == s.text && Latch in s.flags then s.(latched := None) else s)
    else if force then Changed(s.(latched := None), v)
    else if Rom in s.flags || Init in s.flags then s
    else if Latch in s.flags then s.(latched := Some(v), modified := true, count := s.count + 1)
    else if Cheat in s.flags && !cheats then s
    else Changed(s, v)
  }

  /** Cvar_Set2 notes the flags of the variable as modified. */
  predicate Touches(s: State, value: string) {
    !IsSet(s, Validated(s, value))
  }

  /** The variable that is registered again, before a latched text is taken */
  function Registered(s: State, value: string, flags: set<Flag>): State {
    var v := Validated(s, value);
    var t :=
      if UserCreated in s.flags then
        s.(reset := v, latched := if Rom in flags then Some(v) else s.latched)
      else s;
    t.(flags := FlagsAfter(s.flags, flags), reset := if t.reset == "" then v else t.reset)
  }

  /** The flags that are added; VmCreated is dropped if the variable is not the game's already. */
  function NewFlags(had: set<Flag>, flags: set<Flag>): set<Flag> {
    if VmCreated in had then flags else flags - {VmCreated}
  }

  /** The flags of a variable that is registered again; the game cannot take over one of the engine. */
  function FlagsAfter(had: set<Flag>, flags: set<Flag>): set<Flag> {
    var t := had - {UserCreated};
    (if VmCreated in flags then t else t - {VmCreated}) + NewFlags(had, flags)
  }

  /** The variable after Cvar_Get has found it */
  function Got(s: State, value: string, flags: set<Flag>, cheats: bool): State {
    var t := Registered(s, value, flags);
    match t.latched
    case None => t
    case Some(text) => SetTo(t.(latched := None), text, true, cheats)
  }

  /** The flags that Cvar_Get notes as modified then */
  function GotTouched(s: State, value: string, flags: set<Flag>): set<Flag> {
    var t := Registered(s, value, flags);
    match t.latched
    case None => {}
    case Some(text) => (if Touches(t.(latched := None), text) then t.flags else {}) + NewFlags(s.flags, flags)
  }

  /** The variable that Cvar_Get creates */
  function Created(value: string, flags: set<Flag>): State {
    State(value, value, None, flags, true, 1, Unchecked)
  }

  /** Cvar_Restart throws a variable out. */
  predicate IsThrown(flags: set<Flag>, unsetVM: bool) {
    UserCreated in flags || (unsetVM && VmCreated in flags)
  }

  /** A variable that Cvar_Restart keeps */
  function Restarted(s: State, cheats: bool): State {
    if Rom in s.flags || Init in s.flags || NoRestart in s.flags then s else SetTo(s, s.reset, false, cheats)
  }

  // ---- what that means ----

  /** Forcing a value onto a variable takes effect unless the value is already latched. */
  lemma ForcedTakesEffect(s: State, value: string, cheats: bool)
    ensures
      var v := Validated(s, value);
      SetTo(s, value, true, cheats).text == v <==> v == s.text || !(Latch in s.flags && s.latched == Some(v))
  {
  }

  /** A value that is latched already cannot be forced. */
  lemma LatchedIsNotForced()
    ensures
      var s := State("0", "0", Some("1"), {Latch}, true, 2, Unchecked);
      SetTo(s, "1", true, true).text == "0"
  {
  }

  /** Setting a variable takes effect: the value is there already, or it is not latched already if it is forced, and
      the variable neither protected nor to be latched otherwise. */
  predicate TakesEffect(s: State, value: string, force: bool, cheats: bool) {
    var v := Validated(s, value);
    || v == s.text
    || if force then !(Latch in s.flags && s.latched == Some(v)) else !(IsProtected(s, cheats) || Latch in s.flags)
  }

  /** Setting a variable takes effect just then. */
  lemma SetTakesEffect(s: State, value: string, force: bool, cheats: bool)
    ensures
      var r := SetTo(s, value, force, cheats);
      && Validated(r, value) == Validated(s, value)
      && (r.text == Validated(s, value) <==> TakesEffect(s, value, force, cheats))
  {
  }

  /** The text that the variable has, or will have when it is registered again */
  function Pending(s: State): string {
    if s.latched.Some? then s.latched.value else s.text
  }

  /** What setting a variable to v may do. Its text becomes v or stays. A variable that takes its texts only when it is
      registered again keeps its text, and v waits, unless it may not be written at all. Each new text, there or
      waiting, is counted once. */
  ghost predicate IsSetBy(s: State, r: State, v: string, force: bool, cheats: bool) {
    && r.flags == s.flags && r.reset == s.reset && r.limits == s.limits && (r.text == v || r.text == s.text)
    && (Latch in s.flags && Rom !in s.flags && Init !in s.flags && !force ==> r.text == s.text && Pending(r) == v)
    && (Latch in s.flags && force && s.latched != Some(v) ==> r.text == v && r.latched == None)
    && (r.text == v && v != s.text ==> r.latched == None || !(force || Latch in s.flags))
    && r.count == s.count + (if r.text != s.text || (r.latched.Some? && r.latched != s.latched) then 1 else 0)
    && (r.modified <==> s.modified || r.count > s.count)
  }

  /** Setting a variable does what it may. */
  lemma SetIsCounted(s: State, value: string, force: bool, cheats: bool)
    ensures IsSetBy(s, SetTo(s, value, force, cheats), Validated(s, value), force, cheats)
  {
  }

  /** A value that waits is taken when the variable is registered again. */
  lemma WaitsForRegistration(s: State, v: string, value: string, flags: set<Flag>, cheats: bool)
    requires s.limits.Unchecked? && Latch in s.flags && Rom !in s.flags && Init !in s.flags && UserCreated !in s.flags
    ensures
      var r := SetTo(s, v, false, cheats);
      r.text == s.text && Got(r, value, flags, cheats).text == v && Got(r, value, flags, cheats).latched == None
  {
  }

  /** What registering a variable again with the checked value v leaves: the waiting text is taken, a read-only
      variable that only the user made takes v, and of the flags the ones of both. */
  ghost predicate IsRegistered(s: State, r: State, v: string, flags: set<Flag>) {
    && (forall f | f != UserCreated && f != VmCreated :: f in r.flags <==> f in s.flags || f in flags)
    && (UserCreated in r.flags <==> UserCreated in flags)
    && (VmCreated in r.flags <==> VmCreated in s.flags && VmCreated in flags)
    && r.reset == (if UserCreated in s.flags || s.reset == "" then v else s.reset) && r.limits == s.limits
    && r.latched == None
    && r.text == if UserCreated in s.flags && Rom in flags then Validated(r, v)
                 else if s.latched.Some? then Validated(r, s.latched.value) else s.text
  }

  /** Registering a variable again leaves what it should. */
  lemma GotIsRegistered(s: State, value: string, flags: set<Flag>, cheats: bool)
    ensures IsRegistered(s, Got(s, value, flags, cheats), Validated(s, value), flags)
  {
  }

  /** A variable that is kept has its reset text afterwards unless it is protected, latched or not to be
      restarted. */
  lemma RestartedIsReset(s: State, cheats: bool)
    ensures
      var v, r := Validated(s, s.reset), Restarted(s, cheats);
      && Validated(r, r.reset) == v
      && (r.text == v <==> v == s.text || !(IsProtected(s, cheats) || NoRestart in s.flags || Latch in s.flags))
  {
  }
}
