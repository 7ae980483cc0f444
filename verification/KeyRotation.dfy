/** Master key rotation (internal/api/settings_handlers.go, handleRotateMasterKey; internal/crypto/envelope.go and
    masterkey.go). A crash may come after any write; every secret must still open with the keyring on disk. */
module KeyRotation {
  import opened Text
  import opened Writes

  // ---------- envelopes ----------

  /** Authenticated encryption, taken as ideal: a box opens with the key and context it was sealed with, and with no
      others. */
  datatype Box = Box(key: string, plain: string, context: string)

  function OpenBox(key: string, box: Box, context: string): Option<string> {
    if box.key == key && box.context == context then Some(box.plain) else None
  }

  /** A stored string: an envelope that names its master key, or text that does not decode. */
  datatype Stored = Garbage | Envelope(keyID: string, wrapped: Box, body: Box)

  datatype Keyring = Keyring(keys: map<string, string>, active: string)

  function Open(ring: Keyring, s: Stored, context: string): Option<string> {
    if s.Garbage? || s.keyID !in ring.keys then None
    else
      var dek := OpenBox(ring.keys[s.keyID], s.wrapped, s.keyID);
      if dek.None? then None else OpenBox(dek.value, s.body, context)
  }

  function Seal(ring: Keyring, dek: string, plain: string, context: string): Stored
    requires ring.active in ring.keys
  {
    Envelope(ring.active, Box(ring.keys[ring.active], dek, ring.active), Box(dek, plain, context))
  }

  datatype Rewrapped = Unreadable | Current | Moved(sealed: Stored)

  /** Moves an envelope onto the active key without touching the body. */
  function Rewrap(ring: Keyring, s: Stored): Rewrapped {
    if s.Garbage? then Unreadable
    else if s.keyID == ring.active then Current
    else if s.keyID !in ring.keys || ring.active !in ring.keys then Unreadable
    else
      var dek := OpenBox(ring.keys[s.keyID], s.wrapped, s.keyID);
      if dek.None? then Unreadable
      else Moved(Envelope(ring.active, Box(ring.keys[ring.active], dek.value, ring.active), s.body))
  }

  /** A secret opens to the same text after its envelope is moved. */
  lemma RewrapKeepsSecret(ring: Keyring, s: Stored, context: string)
    requires Open(ring, s, context).Some? && ring.active in ring.keys
    ensures var r := Rewrap(ring, s);
            && !r.Unreadable?
            && (r.Moved? ==> r.sealed.keyID == ring.active && Open(ring, r.sealed, context) == Open(ring, s, context))
  {
  }

  /** A sealed secret opens in its own context and in no other, and not with another key under the same id. */
  lemma ContextBinds(ring: Keyring, dek: string, plain: string, context: string, other: string, key: string)
    requires ring.active in ring.keys
    ensures Open(ring, Seal(ring, dek, plain, context), context) == Some(plain)
    ensures other != context ==> Open(ring, Seal(ring, dek, plain, context), other) == None
    ensures key != ring.keys[ring.active] ==>
              Open(ring.(keys := ring.keys[ring.active := key]), Seal(ring, dek, plain, context), context) == None
  {
  }

  // ---------- a fresh key id ----------

  function KeyID(n: nat): string { "k" + Itoa(n) }

  lemma KeyIDInjective(m: nat, n: nat)
    requires KeyID(m) == KeyID(n)
    ensures m == n
  {
    assert KeyID(m)[1..] == Itoa(m) && KeyID(n)[1..] == Itoa(n);
    NatTextInjective(m, n);
  }

  /** The ids in use that the search has not passed. */
  ghost function Ahead(keys: map<string, string>, n: nat): set<string> {
    set id | id in keys && exists m: nat :: m >= n && id == KeyID(m)
  }

  lemma AheadShrinks(keys: map<string, string>, n: nat)
    requires KeyID(n) in keys
    ensures Ahead(keys, n + 1) < Ahead(keys, n)
  {
    assert KeyID(n) in Ahead(keys, n);
    if KeyID(n) in Ahead(keys, n + 1) {
      var m: nat :| m >= n + 1 && KeyID(n) == KeyID(m);
      KeyIDInjective(m, n);
    }
  }

  /** The first id that no key has, counting up from one past the number of keys. */
  ghost predicate IsNextID(keys: map<string, string>, id: string) {
    id !in keys && exists n: nat :: n > |keys| && id == KeyID(n) && forall m: nat :: |keys| < m < n ==> KeyID(m) in keys
  }

  /** Counts up from one past the number of keys until an id is free. */
  method NextKeyID(keys: map<string, string>) returns (id: string)
    ensures IsNextID(keys, id)
  {
    hide KeyID;
    var n := |keys| + 1;
    while KeyID(n) in keys
      invariant n > |keys|
      invariant forall m: nat :: |keys| < m < n ==> KeyID(m) in keys
      decreases Ahead(keys, n)
    {
      AheadShrinks(keys, n);
      n := n + 1;
    }
    id := KeyID(n);
  }

  // ---------- durable state ----------

  type Ref = string

  /** What a crash leaves: the key file and the sealed column values. */
  datatype Durable = Durable(disk: Keyring, store: map<Ref, Stored>)

  /** What a row holds, for those who can open it. */
  datatype Secret = Secret(context: string, plain: string)

  ghost predicate Opens(ring: Keyring, store: map<Ref, Stored>, secrets: map<Ref, Secret>) {
    forall ref :: ref in secrets ==>
      ref in store && Open(ring, store[ref], secrets[ref].context) == Some(secrets[ref].plain)
  }

  /** The keyring has the very key an envelope was wrapped with, under the id it names. */
  predicate Holds(ring: Keyring, s: Stored) {
    s.Envelope? && s.keyID in ring.keys && ring.keys[s.keyID] == s.wrapped.key
  }

  /** Every key of `a` is in `b`, under the same id. */
  ghost predicate Within(a: Keyring, b: Keyring) {
    forall id :: id in a.keys ==> id in b.keys && b.keys[id] == a.keys[id]
  }

  datatype Response = Response(newKeyID: string, rewrapped: nat, failed: nat)

  /** What can go wrong for one row. */
  datatype RowFault = RowFault(rewrapFails: bool, write: Write)

  datatype RowOutcome = Failed | Unchanged | Rewrote

  /** An envelope under another key that the keyring has. */
  predicate Movable(ring: Keyring, s: Stored) {
    Holds(ring, s) && s.wrapped.context == s.keyID && s.keyID != ring.active
  }

  /** What the pass makes of a row: nothing of one that is current, a failure of one it cannot open or write. */
  function Result(ring: Keyring, s: Stored, fault: RowFault): RowOutcome {
    if fault.rewrapFails then Failed
    else if Names(s, ring.active) then Unchanged
    else if Movable(ring, s) && fault.write.Done? then Rewrote
    else Failed
  }

  /** What the row holds then: the same body, with its data key wrapped by the active key. */
  function RowAfter(ring: Keyring, s: Stored, fault: RowFault): Stored
    requires ring.active in ring.keys
  {
    if fault.rewrapFails || !Movable(ring, s) || fault.write.Refused? then s
    else Envelope(ring.active, Box(ring.keys[ring.active], s.wrapped.plain, ring.active), s.body)
  }

  /** How many of the listed rows come to this. */
  ghost function Tally(refs: seq<Ref>, store: map<Ref, Stored>, ring: Keyring, faults: Ref -> RowFault,
                       outcome: RowOutcome): nat
    requires forall ref :: ref in refs ==> ref in store
  {
    if refs == [] then 0
    else
      var ref := refs[|refs| - 1];
      Tally(refs[..|refs| - 1], store, ring, faults, outcome)
        + if Result(ring, store[ref], faults(ref)) == outcome then 1 else 0
  }

  ghost predicate Distinct(refs: seq<Ref>) { forall i, j :: 0 <= i < j < |refs| ==> refs[i] != refs[j] }

  /** The first `n` listed rows are as the pass leaves them, and the others as they were. */
  ghost predicate PassedTo(refs: seq<Ref>, n: nat, store: map<Ref, Stored>, was: map<Ref, Stored>, ring: Keyring,
                           faults: Ref -> RowFault)
    requires ring.active in ring.keys && forall ref :: ref in refs ==> ref in was
  {
    && store.Keys == was.Keys
    && forall k :: 0 <= k < |refs| ==>
         store[refs[k]] == if k < n then RowAfter(ring, was[refs[k]], faults(refs[k])) else was[refs[k]]
  }

  lemma NonePassed(refs: seq<Ref>, store: map<Ref, Stored>, ring: Keyring, faults: Ref -> RowFault)
    requires ring.active in ring.keys && forall ref :: ref in refs ==> ref in store
    ensures PassedTo(refs, 0, store, store, ring, faults)
  {
  }

  lemma OneMorePassed(refs: seq<Ref>, n: nat, before: map<Ref, Stored>, store: map<Ref, Stored>, was: map<Ref, Stored>,
                      ring: Keyring, faults: Ref -> RowFault)
    requires ring.active in ring.keys && forall ref :: ref in refs ==> ref in was
    requires Distinct(refs) && n < |refs| && PassedTo(refs, n, before, was, ring, faults) && store.Keys == was.Keys
    requires refs[n] in refs && store[refs[n]] == RowAfter(ring, before[refs[n]], faults(refs[n]))
    requires forall other :: other in store && other != refs[n] ==> store[other] == before[other]
    ensures PassedTo(refs, n + 1, store, was, ring, faults) && before[refs[n]] == was[refs[n]]
  {
    hide RowAfter;
    forall k | 0 <= k < |refs|
      ensures store[refs[k]] == if k < n + 1 then RowAfter(ring, was[refs[k]], faults(refs[k])) else was[refs[k]]
    {
      assert k != n ==> refs[k] != refs[n];
      assert refs[k] in refs;
    }
  }

  lemma AllPassed(refs: seq<Ref>, store: map<Ref, Stored>, was: map<Ref, Stored>, ring: Keyring,
                  faults: Ref -> RowFault)
    requires ring.active in ring.keys && forall ref :: ref in refs <==> ref in was
    requires PassedTo(refs, |refs|, store, was, ring, faults)
    ensures Rewritten(store, was, ring, faults)
  {
    hide RowAfter;
    forall ref | ref in was ensures store[ref] == RowAfter(ring, was[ref], faults(ref)) {
      var k :| 0 <= k < |refs| && refs[k] == ref;
    }
  }

  ghost predicate Rewritten(store: map<Ref, Stored>, was: map<Ref, Stored>, ring: Keyring, faults: Ref -> RowFault)
    requires ring.active in ring.keys
  {
    store.Keys == was.Keys && forall ref :: ref in was ==> store[ref] == RowAfter(ring, was[ref], faults(ref))
  }

  /** No fault strikes any listed row, and each opens. */
  ghost predicate Clean(refs: seq<Ref>, faults: Ref -> RowFault, secrets: map<Ref, Secret>) {
    forall ref :: ref in refs ==> ref in secrets && !faults(ref).rewrapFails && faults(ref).write.Done?
  }

  lemma {:induction false} CleanPass(refs: seq<Ref>, store: map<Ref, Stored>, ring: Keyring, faults: Ref -> RowFault,
                                     secrets: map<Ref, Secret>)
    requires forall ref :: ref in refs ==> ref in store
    requires Opens(ring, store, secrets) && Clean(refs, faults, secrets)
    ensures Tally(refs, store, ring, faults, Failed) == 0
  {
    if refs != [] {
      var ref := refs[|refs| - 1];
      assert ref in refs;
      assert forall r :: r in refs[..|refs| - 1] ==> r in refs;
      CleanPass(refs[..|refs| - 1], store, ring, faults, secrets);
      assert Open(ring, store[ref], secrets[ref].context).Some?;
    }
  }

  /** Every listed row comes to one of the three. */
  lemma {:induction false} TallySum(refs: seq<Ref>, store: map<Ref, Stored>, ring: Keyring, faults: Ref -> RowFault)
    requires forall ref :: ref in refs ==> ref in store
    ensures Tally(refs, store, ring, faults, Rewrote) + Tally(refs, store, ring, faults, Failed)
              + Tally(refs, store, ring, faults, Unchanged) == |refs|
  {
    hide Result;
    if refs != [] {
      assert refs[|refs| - 1] in refs;
      assert forall r :: r in refs[..|refs| - 1] ==> r in refs;
      TallySum(refs[..|refs| - 1], store, ring, faults);
    }
  }

  lemma TallyNext(refs: seq<Ref>, n: nat, store: map<Ref, Stored>, ring: Keyring, faults: Ref -> RowFault,
                  outcome: RowOutcome)
    requires n < |refs| && forall ref :: ref in refs ==> ref in store
    ensures refs[n] in refs
    ensures (forall ref :: ref in refs[..n] ==> ref in store) && forall ref :: ref in refs[..n + 1] ==> ref in store
    ensures Tally(refs[..n + 1], store, ring, faults, outcome) == Tally(refs[..n], store, ring, faults, outcome)
              + if Result(ring, store[refs[n]], faults(refs[n])) == outcome then 1 else 0
  {
    hide Result;
    assert refs[..n + 1][..n] == refs[..n];
  }

  /** Every secret that opens is in a row that is current or can be moved. */
  lemma RewrapMeans(ring: Keyring, s: Stored)
    requires ring.active in ring.keys
    ensures Rewrap(ring, s).Current? <==> Names(s, ring.active)
    ensures Rewrap(ring, s).Moved? <==> Movable(ring, s)
    ensures Rewrap(ring, s).Moved? ==> Rewrap(ring, s).sealed == RowAfter(ring, s, RowFault(false, Done))
  {
  }

  /** A rotation: the keyring before it, the keyring with the new key, the rows when it began, and the secrets that open
      in memory. */
  datatype Plan = Plan(before: Keyring, wide: Keyring, rows: map<Ref, Stored>, secrets: map<Ref, Secret>)

  /** What a rotation keeps in every durable state it passes through. */
  ghost predicate Fine(d: Durable, p: Plan) {
    // Every secret opens with the keyring on disk, and no row comes or goes.
    && Opens(d.disk, d.store, p.secrets) && d.store.Keys == p.rows.Keys
    // The disk has every key that was in memory until every row names the new one, and none from anywhere else.
    && (p.before.keys.Keys <= d.disk.keys.Keys || AllName(d.store, p.wide.active))
    && Within(d.disk, p.wide)
    // A row that the widest keyring cannot open is left alone.
    && forall ref :: ref in p.rows && !Holds(p.wide, p.rows[ref]) ==> d.store[ref] == p.rows[ref]
  }

  ghost predicate AllFine(history: seq<Durable>, from: nat, p: Plan) {
    forall i :: from <= i < |history| ==> Fine(history[i], p)
  }

  lemma FineSnoc(history: seq<Durable>, d: Durable, from: nat, p: Plan)
    requires AllFine(history, from, p) && Fine(d, p)
    ensures AllFine(history + [d], from, p)
  {
  }

  ghost predicate AllName(store: map<Ref, Stored>, id: string) {
    forall ref :: ref in store ==> Names(store[ref], id)
  }

  ghost predicate NamedBefore(refs: seq<Ref>, n: nat, store: map<Ref, Stored>, id: string)
    requires n <= |refs|
  {
    forall k :: 0 <= k < n ==> refs[k] in store && Names(store[refs[k]], id)
  }

  lemma NoneNamed(refs: seq<Ref>, store: map<Ref, Stored>, id: string)
    ensures NamedBefore(refs, 0, store, id)
  {
  }

  lemma OneMoreNamed(refs: seq<Ref>, n: nat, was: map<Ref, Stored>, store: map<Ref, Stored>, id: string)
    requires n < |refs| && NamedBefore(refs, n, was, id) && store.Keys == was.Keys
    requires refs[n] in store && Names(store[refs[n]], id)
    requires forall other :: other in store && other != refs[n] ==> store[other] == was[other]
    ensures NamedBefore(refs, n + 1, store, id)
  {
  }

  lemma EveryoneNamed(refs: seq<Ref>, store: map<Ref, Stored>, id: string)
    requires NamedBefore(refs, |refs|, store, id) && forall ref :: ref in store ==> ref in refs
    ensures AllName(store, id)
  {
    forall ref | ref in store ensures Names(store[ref], id) {
      var k :| 0 <= k < |refs| && refs[k] == ref;
    }
  }

  class Server {
    var ring: Keyring
    var disk: Keyring
    var store: map<Ref, Stored>
    /** Every durable state since the object was made, oldest first. */
    var history: seq<Durable>

    ghost predicate Valid()
      reads this
    {
      && ring.active in ring.keys
      && |history| > 0 && history[|history| - 1] == Durable(disk, store)
      && forall d :: d in history ==> d.disk.active in d.disk.keys
    }

    /** A start of the panel: the keyring in memory is the one on disk. */
    constructor (disk: Keyring, store: map<Ref, Stored>)
      requires disk.active in disk.keys
      ensures Valid() && this.ring == this.disk == disk && this.store == store && history == [Durable(disk, store)]
    {
      this.ring, this.disk, this.store := disk, disk, store;
      this.history := [Durable(disk, store)];
    }

    method SaveKeyring(w: Write)
      requires Valid()
      modifies this`disk, this`history
      ensures Valid()
      ensures disk == if Lands(w) then ring else old(disk)
      ensures history == if Lands(w) then old(history) + [Durable(ring, store)] else old(history)
    {
      if Lands(w) {
        disk := ring;
        history := history + [Durable(disk, store)];
      }
    }

    method UpdateSealed(ref: Ref, sealed: Stored, w: Write)
      requires Valid()
      modifies this`store, this`history
      ensures Valid()
      ensures store == if Lands(w) then old(store)[ref := sealed] else old(store)
      ensures history == if Lands(w) then old(history) + [Durable(disk, store)] else old(history)
    {
      if Lands(w) {
        store := store[ref := sealed];
        history := history + [Durable(disk, store)];
      }
    }

    /** `newKey` is None when there are no random bytes to be had. */
    method BeginRotation(newKey: Option<string>) returns (id: Option<string>)
      requires Valid()
      modifies this`ring
      ensures Valid()
      ensures id.Some? <==> newKey.Some?
      ensures id.None? ==> ring == old(ring)
      ensures id.Some? ==> IsNextID(old(ring).keys, id.value)
      ensures id.Some? ==> ring == Keyring(old(ring).keys[id.value := newKey.value], id.value)
    {
      if newKey.None? {
        return None;
      }
      var free := NextKeyID(ring.keys);
      ring := Keyring(ring.keys[free := newKey.value], free);
      return Some(free);
    }

    /** DropKey on every id but the active one, in whatever order the keyring lists them. */
    method DropRetired()
      requires Valid()
      modifies this`ring
      ensures Valid()
      ensures ring == Keyring(map[old(ring).active := old(ring).keys[old(ring).active]], old(ring).active)
    {
      var retired := ring.keys.Keys - {ring.active};
      while retired != {}
        invariant ring.active == old(ring).active && ring.active in ring.keys
        invariant ring.keys[ring.active] == old(ring).keys[ring.active]
        invariant ring.keys.Keys == retired + {ring.active} && ring.active !in retired
        decreases retired
      {
        var id :| id in retired;
        ring := ring.(keys := ring.keys - {id});
        retired := retired - {id};
      }
      assert ring.keys == map[ring.active := ring.keys[ring.active]];
    }

    /** Rotation, with the faults that strike it: no new key, each row's, the two saves', and a failure to list the
        rows. `refs` is every row that holds a sealed value, in the order the store lists them. `secrets` are those
        that open in memory, and `wide` is the keyring before any key is dropped. */
    method Rotate(newKey: Option<string>, save: Write, listFails: bool, refs: seq<Ref>, faults: Ref -> RowFault,
                  lastSave: Write, ghost secrets: map<Ref, Secret>)
        returns (r: Option<Response>, ghost wide: Keyring)
      requires Valid()
      requires Distinct(refs) && forall ref :: ref in refs <==> ref in store
      requires Opens(ring, store, secrets)
      modifies this
      // Every state a crash can leave is fine, and the panel that goes on running opens every secret.
      ensures Valid() && old(history) <= history && store.Keys == old(store).Keys
      ensures AllFine(history, |old(history)|, Plan(old(ring), wide, old(store), secrets))
      ensures Opens(ring, store, secrets) && Within(ring, wide)
      ensures |history| > |old(history)| <==> newKey.Some? && Lands(save)
      // Where the keys come from, and when they go from memory.
      ensures IsWide(old(ring), newKey, wide) && ring.active == wide.active
      ensures r.Some? && r.value.failed == 0 ==> ring.keys.Keys == {wide.active} && AllName(store, wide.active)
      ensures !(r.Some? && r.value.failed == 0) ==> ring == wide
      // What becomes of the rows, and what is counted.
      ensures r.Some? ==> Rewritten(store, old(store), wide, faults)
      ensures r.Some? ==> r.value.rewrapped == Tally(refs, old(store), wide, faults, Rewrote)
      ensures r.Some? ==> r.value.failed == Tally(refs, old(store), wide, faults, Failed)
      ensures r.Some? ==> r.value.rewrapped + r.value.failed <= |refs|
      ensures r.Some? ==> r.value.newKeyID == wide.active && (Clean(refs, faults, secrets) ==> r.value.failed == 0)
      ensures r.Some? <==> newKey.Some? && save.Done? && !listFails
      // The key that is active in memory is on disk exactly from the moment the first save lands.
      ensures newKey.Some? && Lands(save) ==> Synced(ring, disk)
      ensures newKey.Some? && Lands(save) ==>
        disk == if r.Some? && r.value.failed == 0 && Lands(lastSave) then ring else wide
      ensures newKey.Some? && save.Refused? ==> disk == old(disk) && store == old(store)
    {
      hide Opens, AllName, Fine, AllFine, IsNextID, Within, Tally, Rewritten, Clean, Distinct;
      var id := BeginRotation(newKey);
      wide := ring;
      WideRing(old(ring), newKey, wide);
      WiderRing(old(ring), wide, store, secrets);
      NoneYet(history, Plan(old(ring), wide, store, secrets));
      if id.None? {
        return None, wide;
      }
      SaveKeyring(save);
      ghost var p := Plan(old(ring), wide, store, secrets);
      StartsFine(p);
      FineSnoc(old(history), Durable(wide, store), |old(history)|, p);
      if Reports(save) || listFails {
        return None, wide;
      }
      var rewrapped, failed := Finish(refs, faults, lastSave, p, |old(history)|);
      TallySum(refs, old(store), wide, faults);
      if Clean(refs, faults, secrets) {
        CleanPass(refs, old(store), wide, faults, secrets);
      }
      return Some(Response(id.value, rewrapped, failed)), wide;
    }

    /** From the listing on: the pass over the rows, and the end of the old keys when nothing failed. */
    method Finish(refs: seq<Ref>, faults: Ref -> RowFault, lastSave: Write, ghost p: Plan, ghost from: nat)
        returns (rewrapped: nat, failed: nat)
      requires Valid() && ring == disk == p.wide
      requires Distinct(refs) && forall ref :: ref in refs <==> ref in store
      requires Fine(Durable(disk, store), p) && AllFine(history, from, p)
      requires p.before.keys.Keys <= p.wide.keys.Keys
      modifies this
      ensures Valid() && old(history) <= history && AllFine(history, from, p) && store.Keys == old(store).Keys
      ensures Opens(ring, store, p.secrets) && Within(ring, p.wide) && ring.active == p.wide.active
      ensures failed == 0 ==> ring.keys.Keys == {p.wide.active} && AllName(store, p.wide.active)
      ensures failed > 0 ==> ring == p.wide
      ensures Rewritten(store, old(store), p.wide, faults) && Synced(ring, disk)
      ensures rewrapped == Tally(refs, old(store), p.wide, faults, Rewrote)
      ensures failed == Tally(refs, old(store), p.wide, faults, Failed)
      ensures disk == if failed == 0 && Lands(lastSave) then ring else p.wide
    {
      hide Opens, AllName, Fine, AllFine, Within, Tally, Rewritten, Distinct;
      rewrapped, failed := RewrapAll(refs, faults, p, from);
      FineOpens(Durable(disk, store), p);
      if failed == 0 {
        EndsFine(ring, store, p);
        DropRetired();
        ghost var passed := history;
        SaveKeyring(lastSave);
        FineSnoc(passed, Durable(ring, store), from, p);
      }
    }

    /** The pass over the listed rows. */
    method RewrapAll(refs: seq<Ref>, faults: Ref -> RowFault, ghost p: Plan, ghost from: nat)
        returns (rewrapped: nat, failed: nat)
      requires Valid() && ring == disk == p.wide
      requires Distinct(refs) && forall ref :: ref in refs <==> ref in store
      requires Fine(Durable(disk, store), p) && AllFine(history, from, p)
      modifies this`store, this`history
      ensures Valid() && old(history) <= history && store.Keys == old(store).Keys
      ensures Fine(Durable(disk, store), p) && AllFine(history, from, p)
      ensures failed == 0 ==> AllName(store, ring.active)
      ensures Rewritten(store, old(store), ring, faults)
      ensures rewrapped == Tally(refs, old(store), ring, faults, Rewrote)
      ensures failed == Tally(refs, old(store), ring, faults, Failed)
    {
      hide Names, Fine, AllFine, NamedBefore, AllName, Valid, Tally, Result, RowAfter, PassedTo, Distinct, Rewritten;
      rewrapped, failed := 0, 0;
      ghost var was := store;
      assert ring.active in ring.keys by { ActiveIsHeld(); }
      NoneNamed(refs, store, ring.active);
      NonePassed(refs, store, ring, faults);
      NoTally(store, ring, faults);
      assert refs[..0] == [];
      for i := 0 to |refs|
        invariant Valid() && old(history) <= history && store.Keys == was.Keys
        invariant Fine(Durable(disk, store), p) && AllFine(history, from, p)
        invariant failed == 0 ==> NamedBefore(refs, i, store, ring.active)
        invariant PassedTo(refs, i, store, was, ring, faults)
        invariant forall ref :: ref in refs[..i] ==> ref in was
        invariant rewrapped == Tally(refs[..i], was, ring, faults, Rewrote)
        invariant failed == Tally(refs[..i], was, ring, faults, Failed)
      {
        assert refs[i] in refs;
        ghost var before := store;
        var outcome := RewrapRow(refs[i], faults(refs[i]), p, from);
        OneMorePassed(refs, i, before, store, was, ring, faults);
        TallyNext(refs, i, was, ring, faults, Rewrote);
        TallyNext(refs, i, was, ring, faults, Failed);
        if failed == 0 && !outcome.Failed? {
          OneMoreNamed(refs, i, before, store, ring.active);
        }
        if outcome.Failed? {
          failed := failed + 1;
        } else if outcome.Rewrote? {
          rewrapped := rewrapped + 1;
        }
      }
      assert refs[..|refs|] == refs;
      AllPassed(refs, store, was, ring, faults);
      if failed == 0 {
        EveryoneNamed(refs, store, ring.active);
      }
    }

    lemma ActiveIsHeld()
      requires Valid()
      ensures ring.active in ring.keys
    {
    }

    /** One turn of the pass. */
    method RewrapRow(ref: Ref, fault: RowFault, ghost p: Plan, ghost from: nat) returns (outcome: RowOutcome)
      requires Valid() && ring == disk == p.wide && ref in store
      requires Fine(Durable(disk, store), p) && AllFine(history, from, p)
      modifies this`store, this`history
      ensures Valid() && old(history) <= history && store.Keys == old(store).Keys
      ensures Fine(Durable(disk, store), p) && AllFine(history, from, p)
      ensures forall other :: other in store && other != ref ==> store[other] == old(store)[other]
      ensures outcome == Result(ring, old(store)[ref], fault)
      ensures ring.active in ring.keys && store[ref] == RowAfter(ring, old(store)[ref], fault)
      ensures !outcome.Failed? ==> Names(store[ref], ring.active)
    {
      hide Rewrap, Fine, AllFine;
      var next := Rewrap(ring, store[ref]);
      RewrapMeans(ring, store[ref]);
      if next.Unreadable? || fault.rewrapFails {
        return Failed;
      }
      if next.Current? {
        return Unchanged;
      }
      MovedRow(ring, store, p, ref);
      FineSnoc(history, Durable(disk, store[ref := next.sealed]), from, p);
      UpdateSealed(ref, next.sealed, fault.write);
      return if Reports(fault.write) then Failed else Rewrote;
    }

    /** A secret is sealed under the active key and its row written. */
    method SealRow(ref: Ref, dek: string, secret: Secret, w: Write)
      requires Valid()
      modifies this`store, this`history
      ensures Valid()
      ensures store == if Lands(w) then old(store)[ref := Seal(ring, dek, secret.plain, secret.context)] else old(store)
    {
      UpdateSealed(ref, Seal(ring, dek, secret.plain, secret.context), w);
    }
  }

  predicate Names(s: Stored, id: string) { s.Envelope? && s.keyID == id }

  lemma NoTally(store: map<Ref, Stored>, ring: Keyring, faults: Ref -> RowFault)
    ensures Tally([], store, ring, faults, Rewrote) == 0 && Tally([], store, ring, faults, Failed) == 0
  {
  }

  lemma MovedRow(ring: Keyring, store: map<Ref, Stored>, p: Plan, ref: Ref)
    requires ring == p.wide && ring.active in ring.keys && ref in store && Rewrap(ring, store[ref]).Moved?
    requires Fine(Durable(ring, store), p)
    ensures Names(Rewrap(ring, store[ref]).sealed, ring.active)
    ensures Fine(Durable(ring, store[ref := Rewrap(ring, store[ref]).sealed]), p)
  {
    assert Holds(ring, store[ref]);
    if ref in p.secrets {
      RewrapKeepsSecret(ring, store[ref], p.secrets[ref].context);
    }
  }

  /** The keyring a rotation works with: the old one, and the new key under the next free id. */
  ghost predicate IsWide(before: Keyring, newKey: Option<string>, wide: Keyring) {
    match newKey
    case None => wide == before
    case Some(key) => IsNextID(before.keys, wide.active) && wide.keys == before.keys[wide.active := key]
  }

  lemma WideRing(before: Keyring, newKey: Option<string>, wide: Keyring)
    requires IsWide(before, newKey, wide)
    ensures Within(before, wide) && Within(wide, wide) && before.keys.Keys <= wide.keys.Keys
  {
  }

  /** Adding a key under an unused id closes nothing. */
  lemma WiderRing(before: Keyring, after: Keyring, store: map<Ref, Stored>, secrets: map<Ref, Secret>)
    requires Opens(before, store, secrets) && Within(before, after)
    ensures Opens(after, store, secrets)
  {
  }

  lemma NoneYet(history: seq<Durable>, p: Plan)
    ensures AllFine(history, |history|, p)
  {
  }

  lemma StartsFine(p: Plan)
    requires Opens(p.wide, p.rows, p.secrets) && p.before.keys.Keys <= p.wide.keys.Keys
    ensures Fine(Durable(p.wide, p.rows), p)
  {
  }

  lemma FineOpens(d: Durable, p: Plan)
    requires Fine(d, p)
    ensures Opens(d.disk, d.store, p.secrets) && Within(d.disk, p.wide)
  {
  }

  /** When every row names the active key, the other keys open nothing, and may go. */
  lemma EndsFine(ring: Keyring, store: map<Ref, Stored>, p: Plan)
    requires ring == p.wide && ring.active in ring.keys && Fine(Durable(ring, store), p)
    requires AllName(store, ring.active)
    ensures var narrow := Keyring(map[ring.active := ring.keys[ring.active]], ring.active);
            Fine(Durable(narrow, store), p) && Opens(narrow, store, p.secrets) && Within(narrow, p.wide)
  {
  }

  // ---------- what is sealed between rotations ----------

  /** The key that is active in memory is on disk, under its id. */
  predicate Synced(ring: Keyring, disk: Keyring)
    requires ring.active in ring.keys
  {
    ring.active in disk.keys && disk.keys[ring.active] == ring.keys[ring.active]
  }

  /** What the panel seals opens in memory, and opens from the keyring on disk if and only if the disk has the very key
      that is active in memory: an id that the disk knows for another key is no help. */
  lemma SealedOpensFromDisk(ring: Keyring, disk: Keyring, dek: string, plain: string, context: string)
    requires ring.active in ring.keys
    ensures Open(ring, Seal(ring, dek, plain, context), context) == Some(plain)
    ensures Open(disk, Seal(ring, dek, plain, context), context) == Some(plain) <==> Synced(ring, disk)
    ensures !Synced(ring, disk) ==> forall c :: Open(disk, Seal(ring, dek, plain, context), c) == None
  {
  }

  /** An id is chosen by what is in memory alone. After a rotation whose last save is refused, the disk still has a key
      that memory dropped, and the next rotation gives its id to another key: with its first save refused, memory and
      disk have different keys under the active id. */
  method ReusedID(a: string, b: string, c: string) returns (ring: Keyring, disk: Keyring)
    requires a != c
    ensures ring.active in ring.keys && ring.active in disk.keys && !Synced(ring, disk)
  {
    hide KeyID, IsNextID, Opens, Fine, AllFine, Within, AllName;
    var two, three := KeyID(2), KeyID(3);
    KeysApart();
    var first := Keyring(map[two := a], two);
    var panel := new Server(first, map[]);
    assert Opens(first, map[], map[]) by { NothingToOpen(first); }
    var r, wide := panel.Rotate(Some(b), Done, false, [], _ => RowFault(false, Done), Refused, map[]);
    SecondIsNext(first.keys, wide.active);
    ghost var keys := panel.ring.keys;
    assert keys.Keys == {three};
    assert two in panel.disk.keys && panel.disk.keys[two] == a;
    var r', wide' := panel.Rotate(Some(c), Refused, false, [], _ => RowFault(false, Done), Done, map[]);
    ring, disk := panel.ring, panel.disk;
    FirstIsNext(keys, wide'.active);
  }

  lemma KeysApart()
    ensures KeyID(2) != KeyID(3)
  {
    if KeyID(2) == KeyID(3) { KeyIDInjective(2, 3); }
  }

  lemma NothingToOpen(ring: Keyring)
    ensures Opens(ring, map[], map[])
  {
  }

  /** With k2 alone in use, k3 is next; with k3 alone in use, k2 is. */
  lemma SecondIsNext(keys: map<string, string>, id: string)
    requires keys.Keys == {KeyID(2)} && IsNextID(keys, id)
    ensures id == KeyID(3)
  {
    KeysApart();
    assert |keys| == |keys.Keys| == 1;
    var n: nat :| n > |keys| && id == KeyID(n) && forall m: nat :: |keys| < m < n ==> KeyID(m) in keys;
    var three := KeyID(3);
    assert n == 2 ==> id in keys;
    assert n > 3 ==> three in keys;
  }

  lemma FirstIsNext(keys: map<string, string>, id: string)
    requires keys.Keys == {KeyID(3)} && IsNextID(keys, id)
    ensures id == KeyID(2)
  {
    KeysApart();
    assert |keys| == |keys.Keys| == 1;
    var n: nat :| n > |keys| && id == KeyID(n) && forall m: nat :: |keys| < m < n ==> KeyID(m) in keys;
    var two := KeyID(2);
    assert n > 2 ==> two in keys;
  }

  // ---------- a panel's life ----------

  /** What happens to a panel: a rotation, which may crash after so many of its writes; a secret put in a row; or a
      restart from what is on disk. */
  datatype Event =
    | Rotation(newKey: Option<string>, save: Write, listFails: bool, faults: Ref -> RowFault, lastSave: Write,
               crash: Option<nat>)
    | Put(ref: Ref, dek: string, secret: Secret, write: Write)
    | Restart

  /** What matters of it for the secrets: one was sealed, under a key that is or is not on disk; the keyring in memory
      reached the disk; the panel started again. */
  datatype Note = Sealed(ref: Ref, secret: Secret, synced: bool) | Saved | Restarted

  /** The secrets that open from disk, those that open in memory alone, and the rows whose secret is gone. */
  datatype Account = Account(kept: map<Ref, Secret>, pending: map<Ref, Secret>, lost: set<Ref>)

  function Entry(a: Account, note: Note): Account {
    match note
    case Sealed(ref, secret, true) => Account(a.kept[ref := secret], a.pending - {ref}, a.lost - {ref})
    case Sealed(ref, secret, false) => Account(a.kept - {ref}, a.pending[ref := secret], a.lost - {ref})
    case Saved => Account(a.kept + a.pending, map[], a.lost)
    case Restarted => Account(a.kept, map[], a.lost + a.pending.Keys)
  }

  function Book(a: Account, notes: seq<Note>): Account {
    if notes == [] then a else Entry(Book(a, notes[..|notes| - 1]), notes[|notes| - 1])
  }

  /** The account as the events alone have it, and whether the key that is active in memory has yet to reach the disk.
      */
  datatype Ledger = Ledger(account: Account, ahead: bool)

  /** What one event does to the account. A secret put while memory is ahead of the disk is pending; a restart loses
      what is pending and leaves memory and disk the same; a first save that lands keeps everything; and one that is
      refused leaves memory ahead. What a rotation does after its first save, and where it crashes after that, is all
      one. */
  function Turn(l: Ledger, e: Event): Ledger {
    match e
    case Put(ref, _, secret, write) =>
      if Lands(write) then l.(account := Entry(l.account, Sealed(ref, secret, !l.ahead))) else l
    case Restart => Ledger(Entry(l.account, Restarted), false)
    case Rotation(newKey, save, _, _, _, crash) =>
      if crash == Some(0) then Ledger(Entry(l.account, Restarted), false)
      else if newKey.None? then l
      else if Lands(save) then Ledger(Entry(l.account, Saved), false)
      else l.(ahead := true)
  }

  function Turns(secrets: map<Ref, Secret>, events: seq<Event>): Ledger {
    if |events| == 0 then Ledger(Account(secrets, map[], {}), false)
    else Turn(Turns(secrets, events[..|events| - 1]), events[|events| - 1])
  }

  /** What each row was last given to hold. */
  function Latest(secrets: map<Ref, Secret>, events: seq<Event>): map<Ref, Secret> {
    if |events| == 0 then secrets
    else Given(Latest(secrets, events[..|events| - 1]), events[|events| - 1])
  }

  function Given(latest: map<Ref, Secret>, e: Event): map<Ref, Secret> {
    if e.Put? && Lands(e.write) then latest[e.ref := e.secret] else latest
  }

  ghost predicate Part(a: map<Ref, Secret>, b: map<Ref, Secret>) {
    forall ref :: ref in a ==> ref in b && b[ref] == a[ref]
  }

  /** Every secret is in exactly one place of the account. */
  ghost predicate Accounted(a: Account, latest: map<Ref, Secret>) {
    && latest.Keys == a.kept.Keys + a.pending.Keys + a.lost && Part(a.kept, latest) && Part(a.pending, latest)
    && a.kept.Keys !! a.pending.Keys && a.kept.Keys !! a.lost && a.pending.Keys !! a.lost
  }

  /** A panel as it runs: its keyring, and what is durable. */
  datatype Running = Running(ring: Keyring, d: Durable)

  /** The account is right: kept secrets open in memory and from disk, pending ones in memory alone. */
  ghost predicate Sound(x: Running, a: Account) {
    && Opens(x.ring, x.d.store, a.kept) && Opens(x.ring, x.d.store, a.pending) && Opens(x.d.disk, x.d.store, a.kept)
    && forall ref :: ref in a.pending ==> ref in x.d.store && !Holds(x.d.disk, x.d.store[ref])
  }

  ghost predicate From(ring: Keyring, used: set<string>) { forall id :: id in ring.keys ==> ring.keys[id] in used }

  /** The rows of lost secrets are wrapped with a key that was used once and that nothing has any more. */
  ghost predicate Gone(x: Running, lost: set<Ref>, used: set<string>) {
    && From(x.ring, used) && From(x.d.disk, used)
    && forall ref :: ref in lost ==>
         && ref in x.d.store && x.d.store[ref].Envelope? && x.d.store[ref].wrapped.key in used
         && !Holds(x.ring, x.d.store[ref]) && !Holds(x.d.disk, x.d.store[ref])
  }

  function NewKeys(e: Event): set<string> { if e.Rotation? && e.newKey.Some? then {e.newKey.value} else {} }

  function Used(disk: Keyring, events: seq<Event>): set<string> {
    if |events| == 0 then disk.keys.Values else Used(disk, events[..|events| - 1]) + NewKeys(events[|events| - 1])
  }

  /** No key is ever drawn twice. */
  ghost predicate FreshKeys(disk: Keyring, events: seq<Event>) {
    forall i :: 0 <= i < |events| ==> NewKeys(events[i]) !! Used(disk, events[..i])
  }

  /** The first save of a rotation takes effect, whatever it reports. */
  predicate SaveLands(e: Event) { e.Rotation? && e.newKey.Some? ==> Lands(e.save) }

  /** The panel as a value. */
  ghost function Now(panel: Server): Running
    reads panel
  {
    Running(panel.ring, Durable(panel.disk, panel.store))
  }

  lemma PutIsSound(x: Running, a: Account, ref: Ref, dek: string, secret: Secret)
    requires x.ring.active in x.ring.keys && Sound(x, a)
    ensures var sealed := Seal(x.ring, dek, secret.plain, secret.context);
            var y := Running(x.ring, Durable(x.d.disk, x.d.store[ref := sealed]));
            Sound(y, Entry(a, Sealed(ref, secret, Synced(x.ring, x.d.disk))))
  {
    var sealed := Seal(x.ring, dek, secret.plain, secret.context);
    SealedOpensFromDisk(x.ring, x.d.disk, dek, secret.plain, secret.context);
    assert Holds(x.d.disk, sealed) <==> Synced(x.ring, x.d.disk);
    hide Open, Seal, Holds, Synced;
  }

  lemma PutIsAccounted(a: Account, latest: map<Ref, Secret>, ref: Ref, secret: Secret, synced: bool)
    requires Accounted(a, latest)
    ensures Accounted(Entry(a, Sealed(ref, secret, synced)), latest[ref := secret])
  {
  }

  lemma PutLeavesGone(x: Running, lost: set<Ref>, used: set<string>, ref: Ref, sealed: Stored)
    requires Gone(x, lost, used)
    ensures Gone(Running(x.ring, Durable(x.d.disk, x.d.store[ref := sealed])), lost - {ref}, used)
  {
  }

  lemma RestartIsSound(x: Running, a: Account, latest: map<Ref, Secret>)
    requires Sound(x, a) && Accounted(a, latest)
    ensures Sound(Running(x.d.disk, x.d), Entry(a, Restarted)) && Accounted(Entry(a, Restarted), latest)
  {
  }

  lemma RestartLosesPending(x: Running, a: Account, used: set<string>)
    requires Sound(x, a) && Gone(x, a.lost, used)
    ensures Gone(Running(x.d.disk, x.d), Entry(a, Restarted).lost, used)
  {
  }

  /** A fine state with the secrets of the whole account is one in which nothing is pending any more. */
  lemma SavedIsSound(ring: Keyring, d: Durable, a: Account, latest: map<Ref, Secret>)
    requires Accounted(a, latest)
    requires Opens(ring, d.store, a.kept + a.pending) && Opens(d.disk, d.store, a.kept + a.pending)
    ensures Sound(Running(ring, d), Entry(a, Saved)) && Accounted(Entry(a, Saved), latest)
  {
  }

  lemma BothOpen(ring: Keyring, store: map<Ref, Stored>, a: Account, latest: map<Ref, Secret>)
    requires Accounted(a, latest)
    ensures Opens(ring, store, a.kept + a.pending) <==> Opens(ring, store, a.kept) && Opens(ring, store, a.pending)
  {
    var all := a.kept + a.pending;
    assert forall ref :: ref in a.kept ==> ref in all && all[ref] == a.kept[ref];
    assert forall ref :: ref in a.pending ==> ref in all && all[ref] == a.pending[ref];
  }

  /** A fresh key opens no lost row, and a rotation leaves such rows as they are. */
  lemma RotationLeavesGone(x: Running, lost: set<Ref>, used: set<string>, newKey: Option<string>, wide: Keyring,
                           y: Running, p: Plan)
    requires Gone(x, lost, used) && IsWide(x.ring, newKey, wide) && (newKey.Some? ==> newKey.value !in used)
    requires p.wide == wide && p.rows == x.d.store && Fine(y.d, p) && Within(y.ring, wide)
    ensures Gone(y, lost, if newKey.Some? then used + {newKey.value} else used)
  {
    hide Opens, AllName, IsNextID;
    forall ref | ref in lost ensures !Holds(wide, x.d.store[ref]) {
      assert x.d.store[ref].wrapped.key in used;
    }
  }

  lemma NoSaveLeavesGone(x: Running, lost: set<Ref>, used: set<string>, newKey: Option<string>, wide: Keyring)
    requires Gone(x, lost, used) && IsWide(x.ring, newKey, wide) && (newKey.Some? ==> newKey.value !in used)
    ensures Gone(Running(wide, x.d), lost, if newKey.Some? then used + {newKey.value} else used)
  {
    hide IsNextID;
  }

  lemma OneNote(a: Account, note: Note)
    ensures Book(a, [note]) == Entry(a, note)
  {
    assert [note][..0] == [];
  }

  lemma TwoNotes(a: Account, first: Note, second: Note)
    ensures Book(a, [first, second]) == Entry(Entry(a, first), second)
  {
    assert [first, second][..1] == [first];
    OneNote(a, first);
  }

  /** What holds of a panel at every point of its life. */
  ghost predicate Alright(x: Running, a: Account, latest: map<Ref, Secret>, used: set<string>, fresh_: bool) {
    Sound(x, a) && Accounted(a, latest) && (fresh_ ==> Gone(x, a.lost, used))
  }

  /** Nothing new is pending or lost. */
  ghost predicate Safe(a: Account, b: Account) { a.pending == map[] ==> b.pending == map[] && b.lost <= a.lost }

  lemma AfterPut(x: Running, a: Account, latest: map<Ref, Secret>, used: set<string>, fresh_: bool,
                 ref: Ref, dek: string, secret: Secret)
    requires x.ring.active in x.ring.keys && Alright(x, a, latest, used, fresh_)
    ensures var sealed := Seal(x.ring, dek, secret.plain, secret.context);
            var y := Running(x.ring, Durable(x.d.disk, x.d.store[ref := sealed]));
            var note := Sealed(ref, secret, Synced(x.ring, x.d.disk));
            && Alright(y, Book(a, [note]), latest[ref := secret], used, fresh_)
            && (note.synced ==> Safe(a, Book(a, [note])))
  {
    hide Sound, Accounted, Gone, Seal, Synced;
    var synced := Synced(x.ring, x.d.disk);
    OneNote(a, Sealed(ref, secret, synced));
    PutIsSound(x, a, ref, dek, secret);
    PutIsAccounted(a, latest, ref, secret, synced);
    if fresh_ {
      PutLeavesGone(x, a.lost, used, ref, Seal(x.ring, dek, secret.plain, secret.context));
    }
  }

  lemma AfterRestart(x: Running, a: Account, latest: map<Ref, Secret>, used: set<string>, fresh_: bool)
    requires Alright(x, a, latest, used, fresh_)
    ensures Alright(Running(x.d.disk, x.d), Entry(a, Restarted), latest, used, fresh_) && Safe(a, Entry(a, Restarted))
  {
    hide Sound, Accounted, Gone;
    RestartIsSound(x, a, latest);
    if fresh_ {
      RestartLosesPending(x, a, used);
    }
  }

  /** A rotation whose first save took effect: every durable state after it has the whole account on disk. */
  lemma AfterSave(x: Running, a: Account, latest: map<Ref, Secret>, used: set<string>, fresh_: bool,
                  newKey: Option<string>, p: Plan, y: Running)
    requires Alright(x, a, latest, used, fresh_) && IsWide(x.ring, newKey, p.wide) && newKey.Some?
    requires fresh_ ==> newKey.value !in used
    requires p.rows == x.d.store && p.secrets == a.kept + a.pending && Fine(y.d, p)
    requires Within(y.ring, p.wide) && Opens(y.ring, y.d.store, p.secrets)
    ensures Alright(y, Entry(a, Saved), latest, used + {newKey.value}, fresh_) && Safe(a, Entry(a, Saved))
  {
    hide Sound, Accounted, Gone, Opens, IsWide, Fine, Within;
    FineOpens(y.d, p);
    SavedIsSound(y.ring, y.d, a, latest);
    if fresh_ {
      RotationLeavesGone(x, a.lost, used, newKey, p.wide, y, p);
    }
  }

  /** A rotation that wrote nothing. */
  lemma AfterNoSave(x: Running, a: Account, latest: map<Ref, Secret>, used: set<string>, fresh_: bool,
                    newKey: Option<string>, wide: Keyring)
    requires Alright(x, a, latest, used, fresh_) && IsWide(x.ring, newKey, wide)
    requires fresh_ && newKey.Some? ==> newKey.value !in used
    ensures Alright(Running(wide, x.d), a, latest, if newKey.Some? then used + {newKey.value} else used, fresh_)
  {
    hide Gone, Open, Holds, IsNextID, Accounted;
    if fresh_ {
      NoSaveLeavesGone(x, a.lost, used, newKey, wide);
    }
    WideRing(x.ring, newKey, wide);
    WiderRing(x.ring, wide, x.d.store, a.kept);
    WiderRing(x.ring, wide, x.d.store, a.pending);
  }

  lemma MoreUsed(x: Running, a: Account, latest: map<Ref, Secret>, used: set<string>, more: set<string>, fresh_: bool)
    requires Alright(x, a, latest, used, fresh_)
    ensures Alright(x, a, latest, used + more, fresh_)
  {
    hide Sound, Accounted;
  }

  /** One event of a panel's life. */
  method Happen(panel: Server, e: Event, ghost a: Account, ghost latest: map<Ref, Secret>, ghost used: set<string>,
                ghost fresh_: bool, ghost ahead: bool)
      returns (next: Server, notes: seq<Note>)
    requires panel.Valid() && Alright(Now(panel), a, latest, used, fresh_)
    requires fresh_ ==> NewKeys(e) !! used && ahead == !Synced(panel.ring, panel.disk)
    modifies panel
    ensures (next == panel || fresh(next)) && next.Valid()
    ensures Alright(Now(next), Book(a, notes), Given(latest, e), used + NewKeys(e), fresh_)
    ensures SaveLands(e) && old(Synced(panel.ring, panel.disk)) ==>
              Synced(next.ring, next.disk) && Safe(a, Book(a, notes))
    ensures fresh_ ==> Turn(Ledger(a, ahead), e) == Ledger(Book(a, notes), !Synced(next.ring, next.disk))
  {
    hide Alright, Safe, Entry;
    next, notes := panel, [];
    match e
    case Put(ref, dek, secret, write) =>
      if Lands(write) {
        AfterPut(Now(panel), a, latest, used, fresh_, ref, dek, secret);
      }
      panel.SealRow(ref, dek, secret, write);
      if Lands(write) {
        notes := [Sealed(ref, secret, Synced(panel.ring, panel.disk))];
      } else {
        StaysSafe(a);
      }
      assert used + NewKeys(e) == used;
    case Restart =>
      AfterRestart(Now(panel), a, latest, used, fresh_);
      OneNote(a, Restarted);
      next := new Server(panel.disk, panel.store);
      notes := [Restarted];
      assert used + NewKeys(e) == used;
    case Rotation(_, _, _, _, _, _) =>
      next, notes := HappenRotation(panel, e, a, latest, used, fresh_, ahead);
  }

  /** A rotation, perhaps cut short. */
  method HappenRotation(panel: Server, e: Event, ghost a: Account, ghost latest: map<Ref, Secret>,
                        ghost used: set<string>, ghost fresh_: bool, ghost ahead: bool)
      returns (next: Server, notes: seq<Note>)
    requires e.Rotation? && panel.Valid() && Alright(Now(panel), a, latest, used, fresh_)
    requires fresh_ ==> NewKeys(e) !! used && ahead == !Synced(panel.ring, panel.disk)
    modifies panel
    ensures (next == panel || fresh(next)) && next.Valid()
    ensures Alright(Now(next), Book(a, notes), latest, used + NewKeys(e), fresh_)
    ensures SaveLands(e) && old(Synced(panel.ring, panel.disk)) ==>
              Synced(next.ring, next.disk) && Safe(a, Book(a, notes))
    ensures fresh_ ==> Turn(Ledger(a, ahead), e) == Ledger(Book(a, notes), !Synced(next.ring, next.disk))
  {
    hide Alright, Safe, Entry, Book, Fine, Opens, IsWide, Within, AllName;
    ghost var x := Now(panel);
    var refs := Listing(panel.store);
    var before := |panel.history|;
    OpensAll(x, a, latest, used, fresh_);
    var r, wide := panel.Rotate(e.newKey, e.save, e.listFails, refs, e.faults, e.lastSave, a.kept + a.pending);
    ghost var p := Plan(x.ring, wide, x.d.store, a.kept + a.pending);
    if e.crash.Some? && before - 1 + e.crash.value < |panel.history| {
      var left := panel.history[before - 1 + e.crash.value];
      assert left in panel.history;
      next := new Server(left.disk, left.store);
      AfterCrash(x, a, latest, used, fresh_, e, p, panel.history, before, left);
      notes := if e.crash.value == 0 then [Restarted] else [Saved, Restarted];
      CrashTurns(a);
    } else if |panel.history| > before {
      LastIsFine(panel.history, before, p);
      AfterSave(x, a, latest, used, fresh_, e.newKey, p, Now(panel));
      OneNote(a, Saved);
      next, notes := panel, [Saved];
    } else {
      AfterNoSave(x, a, latest, used, fresh_, e.newKey, wide);
      assert e.newKey.None? ==> wide == x.ring by { SameRing(x.ring, e.newKey, wide); }
      if fresh_ && e.newKey.Some? {
        FreshIsAhead(x, a, latest, used, e.newKey, wide);
      }
      NoNotes(a);
      StaysSafe(a);
      assert e.newKey.None? ==> used + NewKeys(e) == used;
      next, notes := panel, [];
    }
  }

  lemma SameRing(before: Keyring, newKey: Option<string>, wide: Keyring)
    requires IsWide(before, newKey, wide)
    ensures newKey.None? ==> wide == before
  {
  }

  lemma NoNotes(a: Account)
    ensures Book(a, []) == a
  {
  }

  lemma OpensAll(x: Running, a: Account, latest: map<Ref, Secret>, used: set<string>, fresh_: bool)
    requires Alright(x, a, latest, used, fresh_)
    ensures Opens(x.ring, x.d.store, a.kept + a.pending)
  {
    hide Opens, Gone;
    BothOpen(x.ring, x.d.store, a, latest);
  }

  lemma LastIsFine(history: seq<Durable>, from: nat, p: Plan)
    requires AllFine(history, from, p) && |history| > from
    ensures Fine(history[|history| - 1], p)
  {
  }

  /** After a save nothing is pending, so a restart loses nothing. */
  lemma CrashTurns(a: Account)
    ensures Book(a, [Restarted]) == Entry(a, Restarted)
    ensures Book(a, [Saved, Restarted]) == Entry(a, Saved)
  {
    OneNote(a, Restarted);
    TwoNotes(a, Saved, Restarted);
  }

  /** A key that was never drawn before is not on disk. */
  lemma FreshIsAhead(x: Running, a: Account, latest: map<Ref, Secret>, used: set<string>, newKey: Option<string>,
                     wide: Keyring)
    requires Alright(x, a, latest, used, true) && newKey.Some? && newKey.value !in used
    requires IsWide(x.ring, newKey, wide)
    ensures wide.active in wide.keys && !Synced(wide, x.d.disk)
  {
    hide Sound, Accounted, IsNextID;
  }

  /** A crash before the first write, or after any write, of a rotation. */
  lemma AfterCrash(x: Running, a: Account, latest: map<Ref, Secret>, used: set<string>, fresh_: bool, e: Event, p: Plan,
                   history: seq<Durable>, before: nat, left: Durable)
    requires Alright(x, a, latest, used, fresh_) && e.Rotation? && e.crash.Some?
    requires fresh_ ==> NewKeys(e) !! used
    requires IsWide(x.ring, e.newKey, p.wide) && p.rows == x.d.store && p.secrets == a.kept + a.pending
    requires 0 < before <= |history| && history[before - 1] == x.d && AllFine(history, before, p)
    requires |history| > before ==> e.newKey.Some?
    requires before - 1 + e.crash.value < |history| && left == history[before - 1 + e.crash.value]
    ensures var notes := if e.crash.value == 0 then [Restarted] else [Saved, Restarted];
            && Alright(Running(left.disk, left), Book(a, notes), latest, used + NewKeys(e), fresh_)
            && Safe(a, Book(a, notes))
  {
    hide Alright, Safe, Entry, Book, Fine, Opens, IsWide, Within, AllName;
    if e.crash.value == 0 {
      AfterRestart(x, a, latest, used, fresh_);
      OneNote(a, Restarted);
      MoreUsed(Running(left.disk, left), Entry(a, Restarted), latest, used, NewKeys(e), fresh_);
    } else {
      assert Fine(left, p);
      FineOpens(left, p);
      AfterSave(x, a, latest, used, fresh_, e.newKey, p, Running(left.disk, left));
      AfterRestart(Running(left.disk, left), Entry(a, Saved), latest, used + NewKeys(e), fresh_);
      TwoNotes(a, Saved, Restarted);
      SafeTwice(a, Entry(a, Saved), Entry(Entry(a, Saved), Restarted));
    }
  }

  method Listing(store: map<Ref, Stored>) returns (refs: seq<Ref>)
    ensures Distinct(refs) && forall ref :: ref in refs <==> ref in store
  {
    refs := [];
    var left := store.Keys;
    while left != {}
      invariant left <= store.Keys && Distinct(refs)
      invariant forall ref :: ref in refs ==> ref in store && ref !in left
      invariant forall ref :: ref in store ==> ref in refs || ref in left
      decreases left
    {
      var ref :| ref in left;
      ghost var listed := refs;
      refs := refs + [ref];
      assert forall x :: x in refs <==> x in listed || x == ref;
      left := left - {ref};
    }
  }

  lemma {:induction false} BookAppend(a: Account, some: seq<Note>, more: seq<Note>)
    ensures Book(a, some + more) == Book(Book(a, some), more)
    decreases |more|
  {
    if more == [] {
      assert some + more == some;
    } else {
      assert (some + more)[..|some + more| - 1] == some + more[..|more| - 1];
      BookAppend(a, some, more[..|more| - 1]);
    }
  }

  /** No row of these opens, whatever context is tried. */
  ghost predicate Shut(disk: Keyring, store: map<Ref, Stored>, refs: set<Ref>) {
    forall ref :: ref in refs ==> ref in store && forall c :: Open(disk, store[ref], c) == None
  }

  /** A panel's life: rotations that end, fail or crash after any write, secrets put in rows at any time between them,
      and restarts. At its end every secret is accounted for: a kept one opens from disk; a pending one, sealed under a
      key that has not reached the disk since, does not; and one that was pending when the panel stopped is lost, for
      good when no key is ever drawn twice. When every first save takes effect nothing is ever pending or lost. */
  method Live(disk: Keyring, rows: map<Ref, Stored>, events: seq<Event>, ghost secrets: map<Ref, Secret>)
      returns (end: Durable, notes: seq<Note>)
    requires disk.active in disk.keys && Opens(disk, rows, secrets)
    ensures var a := Book(Account(secrets, map[], {}), notes);
            && Accounted(a, Latest(secrets, events))
            && Opens(end.disk, end.store, a.kept)
            && Shut(end.disk, end.store, a.pending.Keys)
            && (FreshKeys(disk, events) ==> Shut(end.disk, end.store, a.lost) && a == Turns(secrets, events).account)
            && ((forall i :: 0 <= i < |events| ==> SaveLands(events[i])) ==> a.kept == Latest(secrets, events))
  {
    hide Alright, Safe, Entry, Book, Latest, Used, FreshKeys, SaveLands, Given, NewKeys, Synced, Turn, Turns;
    var panel := new Server(disk, rows);
    notes := [];
    NothingYet(disk, secrets);
    ghost var start := Account(secrets, map[], {});
    ghost var fresh_ := FreshKeys(disk, events);
    Begins(disk, rows, secrets, fresh_);
    NoNotes(start);
    StaysSafe(start);
    for i := 0 to |events|
      invariant fresh(panel) && panel.Valid()
      invariant Alright(Now(panel), Book(start, notes), Latest(secrets, events[..i]), Used(disk, events[..i]), fresh_)
      invariant fresh_ ==>
        Turns(secrets, events[..i]) == Ledger(Book(start, notes), !Synced(panel.ring, panel.disk))
      invariant (forall k :: 0 <= k < i ==> SaveLands(events[k])) ==>
                  Synced(panel.ring, panel.disk) && Safe(start, Book(start, notes))
    {
      NextEvent(disk, secrets, events, i);
      ghost var a := Book(start, notes);
      var next, more := Happen(panel, events[i], a, Latest(secrets, events[..i]), Used(disk, events[..i]), fresh_,
                               Turns(secrets, events[..i]).ahead);
      BookAppend(start, notes, more);
      if forall k :: 0 <= k < i + 1 ==> SaveLands(events[k]) {
        SafeTwice(start, a, Book(a, more));
      }
      panel, notes := next, notes + more;
    }
    assert events[..|events|] == events;
    Ends(Now(panel), Book(start, notes), Latest(secrets, events), Used(disk, events), fresh_);
    if forall k :: 0 <= k < |events| ==> SaveLands(events[k]) {
      AllKept(start, Book(start, notes), Latest(secrets, events), Now(panel), Used(disk, events), fresh_);
    }
    end := Durable(panel.disk, panel.store);
  }

  lemma NothingYet(disk: Keyring, secrets: map<Ref, Secret>)
    requires disk.active in disk.keys
    ensures Latest(secrets, []) == secrets && Used(disk, []) == disk.keys.Values && Synced(disk, disk)
    ensures Turns(secrets, []) == Ledger(Account(secrets, map[], {}), false)
  {
  }

  lemma NextEvent(disk: Keyring, secrets: map<Ref, Secret>, events: seq<Event>, i: nat)
    requires i < |events|
    ensures Latest(secrets, events[..i + 1]) == Given(Latest(secrets, events[..i]), events[i])
    ensures Used(disk, events[..i + 1]) == Used(disk, events[..i]) + NewKeys(events[i])
    ensures Turns(secrets, events[..i + 1]) == Turn(Turns(secrets, events[..i]), events[i])
    ensures FreshKeys(disk, events) ==> NewKeys(events[i]) !! Used(disk, events[..i])
  {
    assert events[..i + 1][..i] == events[..i];
  }

  lemma Begins(disk: Keyring, rows: map<Ref, Stored>, secrets: map<Ref, Secret>, fresh_: bool)
    requires Opens(disk, rows, secrets)
    ensures Alright(Running(disk, Durable(disk, rows)), Account(secrets, map[], {}), secrets, disk.keys.Values, fresh_)
  {
  }

  lemma Ends(x: Running, a: Account, latest: map<Ref, Secret>, used: set<string>, fresh_: bool)
    requires Alright(x, a, latest, used, fresh_)
    ensures Accounted(a, latest) && Opens(x.d.disk, x.d.store, a.kept) && Shut(x.d.disk, x.d.store, a.pending.Keys)
    ensures fresh_ ==> Shut(x.d.disk, x.d.store, a.lost)
  {
  }

  lemma AllKept(start: Account, a: Account, latest: map<Ref, Secret>, x: Running, used: set<string>, fresh_: bool)
    requires Alright(x, a, latest, used, fresh_) && Safe(start, a) && start.pending == map[] && start.lost == {}
    ensures a.kept == latest
  {
  }

  lemma StaysSafe(a: Account)
    ensures Safe(a, a)
  {
  }

  lemma SafeTwice(a: Account, b: Account, c: Account)
    requires Safe(a, b) && Safe(b, c)
    ensures Safe(a, c)
  {
  }

  // ---------- the fate of one secret ----------

  /** An event that brings memory to the disk, and one that brings the disk to memory. */
  predicate Saves(e: Event) { e.Rotation? && e.crash != Some(0) && e.newKey.Some? && Lands(e.save) }

  predicate Stops(e: Event) { e.Restart? || (e.Rotation? && e.crash == Some(0)) }

  predicate Puts(e: Event, ref: Ref) { e.Put? && e.ref == ref && Lands(e.write) }

  ghost predicate SavedFirst(events: seq<Event>, j: nat, i: nat)
    requires i <= |events|
  {
    exists k :: j < k < i && Saves(events[k]) && forall m :: j < m < k ==> !Stops(events[m])
  }

  ghost predicate StoppedFirst(events: seq<Event>, j: nat, i: nat)
    requires i <= |events|
  {
    exists k :: j < k < i && Stops(events[k]) && forall m :: j < m < k ==> !Saves(events[m])
  }

  lemma SavedNext(events: seq<Event>, j: nat, i: nat)
    requires j < i < |events|
    ensures SavedFirst(events, j, i + 1) <==>
            SavedFirst(events, j, i) || (Saves(events[i]) && forall m :: j < m < i ==> !Stops(events[m]))
    ensures StoppedFirst(events, j, i + 1) <==>
            StoppedFirst(events, j, i) || (Stops(events[i]) && forall m :: j < m < i ==> !Saves(events[m]))
  {
    hide Saves, Stops;
  }

  /** Neither has come, or one of them came first. */
  lemma {:induction false} OneIsFirst(events: seq<Event>, j: nat, i: nat)
    requires j < i <= |events|
    ensures !(SavedFirst(events, j, i) && StoppedFirst(events, j, i))
    ensures SavedFirst(events, j, i) || StoppedFirst(events, j, i) ||
            forall m :: j < m < i ==> !Saves(events[m]) && !Stops(events[m])
    decreases i
  {
    if i > j + 1 {
      OneIsFirst(events, j, i - 1);
      SavedNext(events, j, i - 1);
    }
  }

  /** Where a secret is after it was put by event `j` and not put again: it opens from disk if and only if memory was
      not ahead when it was put, or a save landed before the panel stopped; it is lost if and only if memory was ahead
      and the panel stopped before a save landed; and it is pending otherwise. */
  lemma {:induction false} FateOfSecret(secrets: map<Ref, Secret>, events: seq<Event>, j: nat, i: nat)
    requires j < i <= |events| && events[j].Put? && Lands(events[j].write)
    requires forall k :: j < k < i ==> !Puts(events[k], events[j].ref)
    ensures var a, ref, ahead := Turns(secrets, events[..i]).account, events[j].ref, Turns(secrets, events[..j]).ahead;
            && (ref in a.kept <==> !ahead || SavedFirst(events, j, i))
            && (ref in a.lost <==> ahead && StoppedFirst(events, j, i))
            && (ref in a.pending <==> ahead && !SavedFirst(events, j, i) && !StoppedFirst(events, j, i))
    decreases i
  {
    hide Turns, SavedFirst, StoppedFirst;
    TurnsStep(secrets, events, i - 1);
    if i == j + 1 {
      NothingSince(events, j);
    } else {
      FateOfSecret(secrets, events, j, i - 1);
      SavedNext(events, j, i - 1);
      OneIsFirst(events, j, i - 1);
      OneIsFirst(events, j, i);
    }
  }

  lemma NothingSince(events: seq<Event>, j: nat)
    requires j < |events|
    ensures !SavedFirst(events, j, j + 1) && !StoppedFirst(events, j, j + 1)
  {
  }

  lemma TurnsStep(secrets: map<Ref, Secret>, events: seq<Event>, i: nat)
    requires i < |events|
    ensures Turns(secrets, events[..i + 1]) == Turn(Turns(secrets, events[..i]), events[i])
  {
    assert events[..i + 1][..i] == events[..i];
  }
}
