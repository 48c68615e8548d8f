/**
 * The state manager both sides share: a sticky slot holding the auth secret
 * and the local name.  The generators of fresh secrets and names are outside
 * the model; their outputs are parameters.
 */
module StateManager {
  import opened Wire
  import opened Defines

  /** One value of the slot. */
  datatype CommonState = CommonState(authSecret: string, name: string)

  /** `setName` on the slot's value: an invalid name is refused and changes
      nothing; a valid one replaces the name and keeps the secret. */
  function SetNameSpec(st: CommonState, name: string): (q: (CommonState, Result<()>))
    ensures q.1.Ok? <==> IsNameValid(name)
    ensures q.1.Err? ==> q.1.error == InvalidNameSet && q.0 == st
    ensures q.1.Ok? ==> q.0.name == name && q.0.authSecret == st.authSecret
  {
    if !IsNameValid(name) then (st, Err(InvalidNameSet)) else (st.(name := name), Ok(()))
  }

  /** `regenerateAuthSecret` on the slot's value: only the secret changes. */
  function RegenerateSpec(st: CommonState, secret: string): (r: CommonState)
    ensures r.authSecret == secret && r.name == st.name
  {
    st.(authSecret := secret)
  }

  /** A slot whose name is valid keeps a valid name under both updates. */
  lemma ValidNameKept(st: CommonState, name: string, secret: string)
    requires IsNameValid(st.name)
    ensures IsNameValid(SetNameSpec(st, name).0.name)
    ensures IsNameValid(RegenerateSpec(st, secret).name)
  {
  }

  /** The two updates touch disjoint fields, so their order does not matter. */
  lemma UpdatesCommute(st: CommonState, name: string, secret: string)
    ensures SetNameSpec(RegenerateSpec(st, secret), name).0 == RegenerateSpec(SetNameSpec(st, name).0, secret)
    ensures SetNameSpec(RegenerateSpec(st, secret), name).1 == SetNameSpec(st, name).1
  {
  }

  predicate IsHexDigit(c: char)
  {
    ('0' <= c <= '9') || ('a' <= c <= 'f') || ('A' <= c <= 'F')
  }

  /** The textual form of a UUID: 8-4-4-4-12 hexadecimal digits separated by `-`. */
  predicate IsUuidText(s: string)
  {
    && |s| == 36
    && (forall i :: 0 <= i < 36 ==> (s[i] == '-' <==> i == 8 || i == 13 || i == 18 || i == 23))
    && (forall i :: 0 <= i < 36 ==> s[i] == '-' || IsHexDigit(s[i]))
  }

  /** The initial name, a generated UUID, passes the name rule. */
  lemma UuidIsValidName(s: string)
    requires IsUuidText(s)
    ensures IsNameValid(s)
  {
    forall i | 0 <= i < |s| ensures IsNameChar(s[i]) {
      assert s[i] == '-' || IsHexDigit(s[i]);
    }
    assert s[0] != '-' && s[35] != '-';
    NameRule(s);
  }

  /** `CommonStateManager`: `state` is the slot's last value and `emitted`
      every value it held, oldest first (what a sticky subscriber sees). */
  class CommonStateManager {
    var state: CommonState
    var emitted: seq<CommonState>

    /** The slot starts holding a generated secret and a generated name. */
    constructor (generatedSecret: string, generatedName: string)
      ensures state == CommonState(generatedSecret, generatedName) && emitted == [state]
    {
      state := CommonState(generatedSecret, generatedName);
      emitted := [CommonState(generatedSecret, generatedName)];
    }

    method RegenerateAuthSecret(generatedSecret: string)
      modifies this
      ensures state == RegenerateSpec(old(state), generatedSecret)
      ensures emitted == old(emitted) + [state]
    {
      state := state.(authSecret := generatedSecret);
      emitted := emitted + [state];
    }

    /** Refuses an invalid name (the source throws) without emitting anything. */
    method SetName(name: string) returns (r: Result<()>)
      modifies this
      ensures (state, r) == SetNameSpec(old(state), name)
      ensures emitted == if r.Ok? then old(emitted) + [state] else old(emitted)
    {
      if !IsNameValid(name) {
        return Err(InvalidNameSet);
      }
      state := state.(name := name);
      emitted := emitted + [state];
      r := Ok(());
    }
  }
}
