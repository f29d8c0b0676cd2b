/**
 * `src/state/instanceStore.ts`: the device identity of this browser (the
 * server-issued instance id, the device fingerprint, the bearer token and
 * the display name), persisted under `dagmar_instance_v1` and pushed to
 * every subscribed listener after each change.
 *
 * The store's transitions are pure functions on `Identity`; the class
 * `Store` is the module-level singleton, whose methods apply a transition,
 * persist the result and notify the listeners.
 */
module InstanceStore {
  import opened Options
  import opened JsString
  import opened Seqs
  import opened AdminData

  /** `InstanceIdentity`. */
  datatype Identity = Identity(
    instanceId: Option<string>,
    deviceFingerprint: Option<string>,
    instanceToken: Option<string>,
    displayName: Option<string>,
    clientType: ClientType)

  /** The record kept in local storage: a field is `Some` exactly when the
      stored JSON holds a string there (a missing or unreadable record has
      every field `None`). The client type is never stored. */
  datatype Saved = Saved(
    instanceId: Option<string>,
    deviceFingerprint: Option<string>,
    instanceToken: Option<string>,
    displayName: Option<string>)

  /** `persist`: only the four allowed keys are written. */
  function PayloadOf(s: Identity): (p: Saved)
  {
    Saved(s.instanceId, s.deviceFingerprint, s.instanceToken, s.displayName)
  }

  /** `loadInitial`: the stored strings are taken over; the fingerprint is
      the stored one, else (the migration of older clients) the stored
      instance id when it is non-empty and no non-empty token was stored,
      else `generated`, a newly generated one. */
  function LoadInitial(raw: Saved, generated: string): (s: Identity)
    ensures s.clientType == WEB && s.deviceFingerprint.Some?
    ensures s.instanceId == raw.instanceId && s.instanceToken == raw.instanceToken
    ensures s.displayName == raw.displayName
    ensures raw.deviceFingerprint.Some? ==> s.deviceFingerprint == raw.deviceFingerprint
    ensures raw.deviceFingerprint.None? && Filled(raw.instanceId) && !Filled(raw.instanceToken)
      ==> s.deviceFingerprint == raw.instanceId
    ensures s.deviceFingerprint != Some(generated) ==> s.deviceFingerprint in {raw.deviceFingerprint, raw.instanceId}
  {
    var fingerprint :=
      if raw.deviceFingerprint.Some? then raw.deviceFingerprint.value
      else if !Filled(raw.instanceToken) && Filled(raw.instanceId) then raw.instanceId.value
      else generated;
    Identity(raw.instanceId, Some(fingerprint), raw.instanceToken, raw.displayName, WEB)
  }

  /** What every transition keeps: a fingerprint is present and the client
      type is `WEB`. */
  predicate Steady(s: Identity)
  {
    s.deviceFingerprint.Some? && s.clientType == WEB
  }

  /** Reading back what was persisted gives the same identity, whatever
      fingerprint would be generated: a reload loses nothing. */
  lemma ReloadRestores(s: Identity, generated: string)
    requires Steady(s)
    ensures LoadInitial(PayloadOf(s), generated) == s
  {
  }

  /** A record written by an older client, with an instance id and no token
      and no fingerprint, keeps that id as its fingerprint, and a second
      load of the migrated record changes nothing. */
  lemma MigrationIsStable(raw: Saved, generated1: string, generated2: string)
    requires raw.deviceFingerprint.None? && raw.instanceToken.None? && Filled(raw.instanceId)
    ensures LoadInitial(raw, generated1).deviceFingerprint == raw.instanceId
    ensures LoadInitial(PayloadOf(LoadInitial(raw, generated1)), generated2) == LoadInitial(raw, generated1)
  {
    ReloadRestores(LoadInitial(raw, generated1), generated2);
  }

  // ---------------------------------------------------------- transitions

  /** `setDeviceFingerprint`: a new fingerprint means a new registration. */
  function WithFingerprint(s: Identity, fingerprint: string): (r: Identity)
    ensures r.deviceFingerprint == Some(fingerprint) && r.clientType == s.clientType
    ensures r.instanceId.None? && r.instanceToken.None? && r.displayName.None?
  {
    s.(deviceFingerprint := Some(fingerprint), instanceId := None, instanceToken := None, displayName := None)
  }

  /** `setInstanceId`: a different id drops the token and the name; the
      same id changes nothing. */
  function WithInstanceId(s: Identity, instanceId: Option<string>): (r: Identity)
    ensures r.instanceId == instanceId
    ensures r.deviceFingerprint == s.deviceFingerprint && r.clientType == s.clientType
    ensures instanceId == s.instanceId ==> r == s
    ensures instanceId != s.instanceId ==> r.instanceToken.None? && r.displayName.None?
  {
    if s.instanceId != instanceId then s.(instanceId := instanceId, instanceToken := None, displayName := None)
    else s.(instanceId := instanceId)
  }

  /** `setActiveToken`. */
  function WithActiveToken(s: Identity, instanceToken: string, displayName: string): (r: Identity)
    ensures r.instanceToken == Some(instanceToken) && r.displayName == Some(displayName)
    ensures r.instanceId == s.instanceId && r.deviceFingerprint == s.deviceFingerprint
    ensures r.clientType == s.clientType
  {
    s.(instanceToken := Some(instanceToken), displayName := Some(displayName))
  }

  /** `clearToken`. */
  function TokenCleared(s: Identity): (r: Identity)
    ensures r.instanceToken.None? && r.displayName.None?
    ensures r.instanceId == s.instanceId && r.deviceFingerprint == s.deviceFingerprint
    ensures r.clientType == s.clientType
  {
    s.(instanceToken := None, displayName := None)
  }

  /** `resetAll`: everything forgotten but a newly generated fingerprint. */
  function ResetIdentity(generated: string): (r: Identity)
    ensures Steady(r) && r.deviceFingerprint == Some(generated)
    ensures r.instanceId.None? && r.instanceToken.None? && r.displayName.None?
  {
    Identity(None, Some(generated), None, None, WEB)
  }

  /** `setInstanceToken`: the cached name is kept, a missing one becomes
      the empty text. */
  function WithToken(s: Identity, token: string): (r: Identity)
    ensures r.instanceToken == Some(token) && r.displayName == Some(OrEmpty(s.displayName))
    ensures s.displayName.Some? ==> r.displayName == s.displayName
    ensures r.instanceId == s.instanceId && r.deviceFingerprint == s.deviceFingerprint
  {
    WithActiveToken(s, token, OrEmpty(s.displayName))
  }

  /** `setInstanceDisplayName`: the token is kept, a missing one becomes the
      empty text. */
  function WithDisplayName(s: Identity, name: string): (r: Identity)
    ensures r.displayName == Some(name) && r.instanceToken == Some(OrEmpty(s.instanceToken))
    ensures s.instanceToken.Some? ==> r.instanceToken == s.instanceToken
    ensures r.instanceId == s.instanceId && r.deviceFingerprint == s.deviceFingerprint
  {
    WithActiveToken(s, OrEmpty(s.instanceToken), name)
  }

  /** What `getOrCreateDeviceFingerprint` returns and the identity after it. */
  datatype Created = Created(fingerprint: string, state: Identity)

  /** `getOrCreateDeviceFingerprint`: a non-empty fingerprint is returned
      as it is; otherwise `generated` is stored and returned. */
  function GetOrCreate(s: Identity, generated: string): (c: Created)
    ensures Filled(s.deviceFingerprint) ==> c.fingerprint == s.deviceFingerprint.value && c.state == s
    ensures !Filled(s.deviceFingerprint) ==> c.fingerprint == generated && c.state == s.(deviceFingerprint := Some(generated))
    ensures c.state.deviceFingerprint == Some(c.fingerprint)
  {
    if Filled(s.deviceFingerprint) then Created(s.deviceFingerprint.value, s)
    else Created(generated, s.(deviceFingerprint := Some(generated)))
  }

  /** Every transition keeps a fingerprint and the `WEB` client type. */
  lemma TransitionsKeepSteady(s: Identity, text: string, id: Option<string>, generated: string)
    requires Steady(s)
    ensures Steady(WithFingerprint(s, text)) && Steady(WithInstanceId(s, id))
    ensures Steady(WithActiveToken(s, text, text)) && Steady(TokenCleared(s))
    ensures Steady(WithToken(s, text)) && Steady(WithDisplayName(s, text))
    ensures Steady(GetOrCreate(s, generated).state)
  {
  }

  /** Setting the same instance id twice is setting it once. */
  lemma InstanceIdIdempotent(s: Identity, id: Option<string>)
    ensures WithInstanceId(WithInstanceId(s, id), id) == WithInstanceId(s, id)
  {
  }

  /** Once a non-empty fingerprint is created, every later call returns it
      and changes nothing, whatever it would have generated. */
  lemma GetOrCreateStable(s: Identity, generated1: string, generated2: string)
    requires generated1 != ""
    ensures var first := GetOrCreate(s, generated1);
      GetOrCreate(first.state, generated2) == first
  {
  }

  /** Storing a token and then a name, in either order, is one
      `setActiveToken` with both. */
  lemma TokenAndNameCommute(s: Identity, token: string, name: string)
    ensures WithDisplayName(WithToken(s, token), name) == WithActiveToken(s, token, name)
    ensures WithToken(WithDisplayName(s, name), token) == WithActiveToken(s, token, name)
  {
  }

  /** A new registration forgets the server identity, and clearing the
      token after it changes nothing. */
  lemma NewRegistrationForgets(s: Identity, fingerprint: string)
    ensures TokenCleared(WithFingerprint(s, fingerprint)) == WithFingerprint(s, fingerprint)
    ensures WithInstanceId(WithFingerprint(s, fingerprint), None) == WithFingerprint(s, fingerprint)
  {
  }

  // ------------------------------------------------------------ listeners

  /** A subscribed callback, known by its identity only. */
  type Listener = nat

  /** One call of a listener with the state it was given. */
  datatype Delivery = Delivery(listener: Listener, state: Identity)

  /** `emit`: every listener, in subscription order, gets the state. */
  function Broadcast(listeners: seq<Listener>, s: Identity): (d: seq<Delivery>)
    ensures |d| == |listeners|
    ensures forall k :: 0 <= k < |d| ==> d[k] == Delivery(listeners[k], s)
  {
    if listeners == [] then [] else [Delivery(listeners[0], s)] + Broadcast(listeners[1..], s)
  }

  /** The store singleton. `saved` is what local storage holds, `delivered`
      every listener call so far. */
  class Store {
    var state: Identity
    var saved: Saved
    var listeners: seq<Listener>
    var delivered: seq<Delivery>

    predicate Valid()
      reads this
    {
      Steady(state) && saved == PayloadOf(state) && NoDuplicates(listeners)
    }

    /** The module's start-up: `loadInitial`, then `persist` so that the
        migration is written back. */
    constructor (raw: Saved, generated: string)
      ensures Valid()
      ensures state == LoadInitial(raw, generated) && listeners == [] && delivered == []
    {
      state := LoadInitial(raw, generated);
      saved := PayloadOf(LoadInitial(raw, generated));
      listeners := [];
      delivered := [];
    }

    /** `emit`. */
    method Emit()
      modifies this`delivered
      ensures delivered == old(delivered) + Broadcast(listeners, state)
    {
      var i := 0;
      while i < |listeners|
        invariant 0 <= i <= |listeners|
        invariant delivered == old(delivered) + Broadcast(listeners[..i], state)
      {
        assert Broadcast(listeners[..i + 1], state) == Broadcast(listeners[..i], state) + [Delivery(listeners[i], state)];
        delivered := delivered + [Delivery(listeners[i], state)];
        i := i + 1;
      }
      assert listeners[..i] == listeners;
    }

    /** `persist` followed by `emit`, the tail of every mutation. */
    method Commit()
      modifies this`saved, this`delivered
      ensures saved == PayloadOf(state)
      ensures delivered == old(delivered) + Broadcast(listeners, state)
    {
      saved := PayloadOf(state);
      Emit();
    }

    /** `subscribe`: the listener is added (a second subscription of the
        same one changes the set not) and called at once. */
    method Subscribe(listener: Listener)
      requires Valid()
      modifies this`listeners, this`delivered
      ensures Valid()
      ensures listeners == if listener in old(listeners) then old(listeners) else old(listeners) + [listener]
      ensures delivered == old(delivered) + [Delivery(listener, state)]
    {
      if listener !in listeners {
        forall i, j | 0 <= i < j < |listeners + [listener]|
          ensures (listeners + [listener])[i] != (listeners + [listener])[j]
        {
          if j == |listeners| {
            assert listeners[i] in listeners;
          }
        }
        listeners := listeners + [listener];
      }
      delivered := delivered + [Delivery(listener, state)];
    }

    /** The function `subscribe` returns: the listener is removed, and the
        others keep their subscription order, as `Set.delete` keeps it. */
    method Unsubscribe(listener: Listener)
      requires Valid()
      modifies this`listeners
      ensures Valid()
      ensures listener !in listeners
      ensures forall l :: l != listener ==> (l in listeners <==> l in old(listeners))
      ensures listeners == Filter(old(listeners), (l: Listener) => l != listener)
    {
      FilterKeepsNoDuplicates(listeners, (l: Listener) => l != listener);
      listeners := Filter(listeners, (l: Listener) => l != listener);
    }

    method SetDeviceFingerprint(fingerprint: string)
      requires Valid()
      modifies this`state, this`saved, this`delivered
      ensures Valid() && state == WithFingerprint(old(state), fingerprint)
      ensures delivered == old(delivered) + Broadcast(listeners, state)
    {
      state := WithFingerprint(state, fingerprint);
      Commit();
    }

    method SetInstanceId(instanceId: Option<string>)
      requires Valid()
      modifies this`state, this`saved, this`delivered
      ensures Valid() && state == WithInstanceId(old(state), instanceId)
      ensures delivered == old(delivered) + Broadcast(listeners, state)
    {
      state := WithInstanceId(state, instanceId);
      Commit();
    }

    method SetActiveToken(instanceToken: string, displayName: string)
      requires Valid()
      modifies this`state, this`saved, this`delivered
      ensures Valid() && state == WithActiveToken(old(state), instanceToken, displayName)
      ensures delivered == old(delivered) + Broadcast(listeners, state)
    {
      state := WithActiveToken(state, instanceToken, displayName);
      Commit();
    }

    method ClearToken()
      requires Valid()
      modifies this`state, this`saved, this`delivered
      ensures Valid() && state == TokenCleared(old(state))
      ensures delivered == old(delivered) + Broadcast(listeners, state)
    {
      state := TokenCleared(state);
      Commit();
    }

    /** `resetAll`, with `generated` the newly generated fingerprint. */
    method ResetAll(generated: string)
      requires Valid()
      modifies this`state, this`saved, this`delivered
      ensures Valid() && state == ResetIdentity(generated)
      ensures delivered == old(delivered) + Broadcast(listeners, state)
    {
      state := ResetIdentity(generated);
      Commit();
    }

    /** `getOrCreateDeviceFingerprint`: nothing is persisted or announced
        when the fingerprint already exists. */
    method GetOrCreateDeviceFingerprint(generated: string) returns (fingerprint: string)
      requires Valid()
      modifies this`state, this`saved, this`delivered
      ensures Valid()
      ensures fingerprint == GetOrCreate(old(state), generated).fingerprint
      ensures state == GetOrCreate(old(state), generated).state
      ensures delivered == if Filled(old(state).deviceFingerprint) then old(delivered)
        else old(delivered) + Broadcast(listeners, state)
    {
      var cur := state.deviceFingerprint;
      if Filled(cur) {
        return cur.value;
      }
      fingerprint := generated;
      state := state.(deviceFingerprint := Some(generated));
      Commit();
    }

    /** `startNewRegistration`, with `generated` the newly generated fingerprint. */
    method StartNewRegistration(generated: string) returns (fingerprint: string)
      requires Valid()
      modifies this`state, this`saved, this`delivered
      ensures Valid() && fingerprint == generated && state == WithFingerprint(old(state), generated)
      ensures delivered == old(delivered) + Broadcast(listeners, state)
    {
      SetDeviceFingerprint(generated);
      fingerprint := generated;
    }

    method SetInstanceToken(token: string)
      requires Valid()
      modifies this`state, this`saved, this`delivered
      ensures Valid() && state == WithToken(old(state), token)
      ensures delivered == old(delivered) + Broadcast(listeners, state)
    {
      SetActiveToken(token, OrEmpty(state.displayName));
    }

    method SetInstanceDisplayName(name: string)
      requires Valid()
      modifies this`state, this`saved, this`delivered
      ensures Valid() && state == WithDisplayName(old(state), name)
      ensures delivered == old(delivered) + Broadcast(listeners, state)
    {
      SetActiveToken(OrEmpty(state.instanceToken), name);
    }
  }

  /** Whatever the store went through, a reload from storage gives back its
      current identity. */
  lemma StoreReloads(store: Store, generated: string)
    requires store.Valid()
    ensures LoadInitial(store.saved, generated) == store.state
  {
    ReloadRestores(store.state, generated);
  }
}
