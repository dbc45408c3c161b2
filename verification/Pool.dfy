/**
 * Keysets on a pool: parsing into slots, early release, and teardown. Every
 * EVP_PKEY handle ever made is either held by one slot or released once.
 */
module Pool {
  import opened Bytes
  import opened Keys
  import opened Jwks
  import Thumbprint

  // ---------------------------------------------------------------- the ledger of handles

  /** An element of the keys array; the handle is the EVP_PKEY pointer in it. */
  datatype Slot = Slot(key: Key, handle: Option<nat>)

  const ZERO_SLOT: Slot := Slot(ZERO_KEY, None)

  /** The slot holds a handle exactly when its key has a public part. */
  predicate Owning(s: Slot)
  {
    s.handle.Some? <==> s.key.pkey.Some?
  }

  /** How often handle h stands in a slot, in an array, in all arrays. */
  function Held(s: Slot, h: nat): nat
  {
    if s.handle == Some(h) then 1 else 0
  }

  function Copies(slots: seq<Slot>, h: nat): nat
  {
    if slots == [] then 0 else Held(slots[0], h) + Copies(slots[1..], h)
  }

  function Owned(all: seq<seq<Slot>>, h: nat): nat
  {
    if all == [] then 0 else Copies(all[0], h) + Owned(all[1..], h)
  }

  lemma {:induction false} CopiesUpdate(slots: seq<Slot>, i: nat, s: Slot, h: nat)
    requires i < |slots|
    ensures Copies(slots[i := s], h) + Held(slots[i], h) == Copies(slots, h) + Held(s, h)
  {
    hide Held;
    var t := slots[i := s];
    if i == 0 {
      assert t[1..] == slots[1..];
    } else {
      CopiesUpdate(slots[1..], i - 1, s, h);
      assert t[1..] == slots[1..][i - 1 := s];
    }
  }

  lemma {:induction false} OwnedUpdate(all: seq<seq<Slot>>, x: nat, slots: seq<Slot>, h: nat)
    requires x < |all|
    ensures Owned(all[x := slots], h) + Copies(all[x], h) == Owned(all, h) + Copies(slots, h)
  {
    hide Copies;
    var t := all[x := slots];
    if x == 0 {
      assert t[1..] == all[1..];
    } else {
      OwnedUpdate(all[1..], x - 1, slots, h);
      assert t[1..] == all[1..][x - 1 := slots];
    }
  }

  lemma {:induction false} OwnedAppend(all: seq<seq<Slot>>, slots: seq<Slot>, h: nat)
    ensures Owned(all + [slots], h) == Owned(all, h) + Copies(slots, h)
  {
    hide Copies;
    if all == [] {
      assert all + [slots] == [slots];
    } else {
      OwnedAppend(all[1..], slots, h);
      assert (all + [slots])[1..] == all[1..] + [slots];
    }
  }

  lemma {:induction false} NoCopies(slots: seq<Slot>, h: nat)
    requires forall i :: 0 <= i < |slots| ==> slots[i].handle.None?
    ensures Copies(slots, h) == 0
  {
    if slots != [] {
      NoCopies(slots[1..], h);
    }
  }

  lemma {:induction false} NoneOwned(all: seq<seq<Slot>>, h: nat)
    requires forall x, i :: 0 <= x < |all| && 0 <= i < |all[x]| ==> all[x][i].handle.None?
    ensures Owned(all, h) == 0
  {
    if all != [] {
      NoCopies(all[0], h);
      assert forall x, i :: 0 <= x < |all| - 1 && 0 <= i < |all[1..][x]| ==> all[1..][x][i] == all[x + 1][i];
      NoneOwned(all[1..], h);
    }
  }

  /** What changes in the account of h when one slot of one keyset is overwritten. */
  lemma SlotUpdate(all: seq<seq<Slot>>, x: nat, i: nat, s: Slot, h: nat)
    requires x < |all| && i < |all[x]|
    ensures Owned(all[x := all[x][i := s]], h) + Held(all[x][i], h) == Owned(all, h) + Held(s, h)
    ensures Held(all[x][i], h) <= Owned(all, h)
  {
    hide Copies, Owned;
    CopiesUpdate(all[x], i, s, h);
    OwnedUpdate(all, x, all[x][i := s], h);
    CopiesUpdate(all[x], i, ZERO_SLOT, h);
    OwnedUpdate(all, x, all[x][i := ZERO_SLOT], h);
  }

  /** Every handle below created was released once, or stands in one slot, or is in hand; no other exists. */
  ghost predicate Account(released: multiset<nat>, all: seq<seq<Slot>>, inHand: Option<nat>, created: nat)
  {
    forall h: nat :: released[h] + Owned(all, h) + (if inHand == Some(h) then 1 else 0) == if h < created then 1 else 0
  }

  /** A slot emptied of its handle, and the handle released. */
  lemma AccountRelease(released: multiset<nat>, all: seq<seq<Slot>>, x: nat, i: nat, t: Slot, created: nat)
    requires Account(released, all, None, created)
    requires x < |all| && i < |all[x]| && t.handle.None?
    ensures all[x][i].handle.None? ==> Account(released, all[x := all[x][i := t]], None, created)
    ensures all[x][i].handle.Some? ==>
      var h := all[x][i].handle.value;
      h < created && h !in released && Account(released + multiset{h}, all[x := all[x][i := t]], None, created)
  {
    hide Owned;
    forall h: nat
      ensures Owned(all[x := all[x][i := t]], h) + Held(all[x][i], h) == Owned(all, h)
      ensures Held(all[x][i], h) <= Owned(all, h)
    {
      SlotUpdate(all, x, i, t, h);
    }
  }

  /** A handle in hand put into an empty slot. */
  lemma AccountStore(released: multiset<nat>, all: seq<seq<Slot>>, x: nat, i: nat, t: Slot,
      inHand: Option<nat>, created: nat)
    requires Account(released, all, inHand, created)
    requires x < |all| && i < |all[x]| && all[x][i].handle.None? && t.handle == inHand
    ensures Account(released, all[x := all[x][i := t]], None, created)
  {
    hide Owned;
    forall h: nat ensures Owned(all[x := all[x][i := t]], h) == Owned(all, h) + Held(t, h) {
      SlotUpdate(all, x, i, t, h);
    }
  }

  /** A new keyset without handles. */
  lemma AccountAppend(released: multiset<nat>, all: seq<seq<Slot>>, slots: seq<Slot>, created: nat)
    requires Account(released, all, None, created)
    requires forall i :: 0 <= i < |slots| ==> slots[i].handle.None?
    ensures Account(released, all + [slots], None, created)
  {
    hide Owned;
    forall h: nat ensures Owned(all + [slots], h) == Owned(all, h) {
      OwnedAppend(all, slots, h);
      NoCopies(slots, h);
    }
  }

  /** A slot rewritten around the handle it holds. */
  lemma AccountRewrite(released: multiset<nat>, all: seq<seq<Slot>>, x: nat, i: nat, t: Slot, created: nat)
    requires Account(released, all, None, created)
    requires x < |all| && i < |all[x]| && t.handle == all[x][i].handle
    ensures Account(released, all[x := all[x][i := t]], None, created)
  {
    hide Owned;
    forall h: nat ensures Owned(all[x := all[x][i := t]], h) == Owned(all, h) {
      SlotUpdate(all, x, i, t, h);
    }
  }

  /** When no slot holds a handle, everything was released exactly once. */
  lemma AccountSettled(released: multiset<nat>, all: seq<seq<Slot>>, created: nat)
    requires Account(released, all, None, created)
    requires forall x, i :: 0 <= x < |all| && 0 <= i < |all[x]| ==> all[x][i].handle.None?
    ensures forall h: nat :: released[h] == if h < created then 1 else 0
  {
    forall h: nat ensures Owned(all, h) == 0 {
      NoneOwned(all, h);
    }
  }

  // ---------------------------------------------------------------- objects

  /** The system's allocator: which of the requests to come it will grant is fixed, and known to nobody. */
  class Memory {
    const grants: nat -> bool
    var asked: nat

    constructor (grants: nat -> bool)
      ensures this.grants == grants && asked == 0
    {
      this.grants, asked := grants, 0;
    }

    method Allocate() returns (ok: bool)
      modifies this
      ensures asked == old(asked) + 1 && ok == grants(old(asked))
    {
      ok := grants(asked);
      asked := asked + 1;
    }
  }

  lemma RefusedSoFar(grants: nat -> bool, from: nat, mid: nat, to: nat)
    requires from <= mid <= to
    ensures Refused(grants, from, mid) || Refused(grants, mid, to) ==> Refused(grants, from, to)
  {
  }

  /** One of the requests numbered from up to, but not including, to was refused. */
  predicate Refused(grants: nat -> bool, from: nat, to: nat)
  {
    exists n :: from <= n < to && !grants(n)
  }

  /** ngx_pool_cleanup_t; armed means that its handler is not NULL. */
  class CleanupNode {
    var armed: bool
    const data: Keyset
    const next: CleanupNode?

    constructor (data: Keyset, next: CleanupNode?)
      ensures armed && this.data == data && this.next == next
    {
      this.data, this.next, armed := data, next, true;
    }
  }

  /** c is the head of the list of nodes, the last registered first. */
  ghost predicate Linked(c: CleanupNode?, nodes: seq<CleanupNode>)
  {
    if nodes == [] then c == null
    else
      var last := |nodes| - 1;
      c == nodes[last] && Linked(nodes[last].next, nodes[..last])
  }

  lemma LinkedStep(c: CleanupNode?, nodes: seq<CleanupNode>, n: nat)
    requires n <= |nodes| && Linked(c, nodes[..n])
    ensures c == null <==> n == 0
    ensures c != null ==> c == nodes[n - 1] && Linked(c.next, nodes[..n - 1])
  {
    if n > 0 {
      assert nodes[..n][..n - 1] == nodes[..n - 1];
    }
  }

  lemma LinkedPush(c: CleanupNode, nodes: seq<CleanupNode>)
    requires Linked(c.next, nodes)
    ensures Linked(c, nodes + [c])
  {
    assert (nodes + [c])[..|nodes|] == nodes;
  }

  /** struct nxe_jwx_jwks_s. */
  class Keyset {
    var slots: seq<Slot>
    var nkeys: nat
    var cln: CleanupNode?

    /** The pcalloc'ed array, and no key in it. */
    constructor (capacity: nat)
      ensures slots == seq(capacity, _ => ZERO_SLOT) && nkeys == 0 && cln == null
    {
      slots := seq(capacity, _ => ZERO_SLOT);
      nkeys, cln := 0, null;
    }

    /**
     * Handles stand only in counted slots, and in the next one while it is open;
     * a counted slot holds a handle exactly when its key has a public part.
     */
    ghost predicate Valid(open: bool)
      reads this
    {
      && nkeys <= |slots|
      && (open ==> nkeys < |slots|)
      && (forall i :: nkeys <= i < |slots| ==> slots[i].handle.None? || (open && i == nkeys))
      && (forall i :: 0 <= i < nkeys ==> Owning(slots[i]))
    }

    /** Nothing is left to release. */
    ghost predicate Empty()
      reads this
    {
      forall i :: 0 <= i < |slots| ==> slots[i].handle.None?
    }

    /** The usable keys. */
    ghost function Keys(): seq<Key>
      reads this
      requires nkeys <= |slots|
    {
      KeysIn(slots, nkeys)
    }
  }

  /** The same keys, but for thumbprints that are missing. */
  ghost predicate Blanked(stored: seq<Key>, keys: seq<Key>)
  {
    && |stored| == |keys|
    && forall i :: 0 <= i < |keys| ==> stored[i] == keys[i] || stored[i] == keys[i].(thumbprint := [])
  }

  lemma BlankedStart()
    ensures Blanked([], [])
  {
  }

  lemma BlankedLength(stored: seq<Key>, keys: seq<Key>)
    requires Blanked(stored, keys)
    ensures |stored| == |keys|
  {
  }

  lemma BlankedStep(stored: seq<Key>, keys: seq<Key>, k: Key, lost: bool)
    requires Blanked(stored, keys)
    ensures Blanked(stored + [if lost then k.(thumbprint := []) else k], keys + [k])
  {
  }

  /** Teardown will release the keyset. */
  predicate Armed(j: Keyset)
    reads j, j.cln
  {
    j.cln != null && j.cln.armed
  }

  function KeysIn(slots: seq<Slot>, n: nat): (keys: seq<Key>)
    requires n <= |slots|
    ensures |keys| == n
  {
    seq(n, i requires 0 <= i < n => slots[i].key)
  }

  /**
   * The pool with its cleanup list, and OpenSSL's account of handles; chain and
   * nodes are the registered keysets and their list nodes, oldest first.
   */
  class Pool {
    var cleanup: CleanupNode?
    var created: nat
    var released: multiset<nat>
    const mem: Memory
    ghost var chain: seq<Keyset>
    ghost var nodes: seq<CleanupNode>

    constructor (mem: Memory)
      ensures chain == [] && created == 0 && released == multiset{} && this.mem == mem
      ensures Valid()
    {
      cleanup, created, released, this.mem := null, 0, multiset{}, mem;
      chain, nodes := [], [];
    }

    ghost function Slots(): seq<seq<Slot>>
      reads this, chain
    {
      seq(|chain|, x requires 0 <= x < |chain| reads this, chain => chain[x].slots)
    }

    /** The keysets are distinct and valid, and the account balances with inHand in a local variable. */
    ghost predicate Sound(inHand: Option<nat>, open: Keyset?)
      reads this, chain
    {
      && (forall x, y :: 0 <= x < y < |chain| ==> chain[x] != chain[y])
      && (forall x :: 0 <= x < |chain| ==> chain[x].Valid(chain[x] == open))
      && Account(released, Slots(), inHand, created)
    }

    /** Every registered keyset and its list node know each other. */
    ghost predicate Registered()
      reads this, chain
    {
      && |nodes| == |chain|
      && (forall x :: 0 <= x < |chain| ==> nodes[x].data == chain[x] && chain[x].cln == nodes[x])
      && Linked(cleanup, nodes)
    }

    /** Between calls: sound, nothing in hand, and a disarmed keyset has nothing left to release. */
    ghost predicate Valid()
      reads this, chain, nodes
    {
      && Sound(None, null) && Registered()
      && forall x :: 0 <= x < |chain| ==> nodes[x].armed || chain[x].Empty()
    }

    /** An EVP_PKEY constructor that succeeds. */
    method NewPkey() returns (h: nat)
      requires Sound(None, null)
      modifies this`created
      ensures h == old(created) && created == h + 1
      ensures Sound(Some(h), null)
    {
      h := created;
      created := created + 1;
      assert Slots() == old(Slots());
    }

    /** EVP_PKEY_free: only for a handle that was made and not yet released. */
    method FreePkey(h: nat)
      requires h < created && h !in released
      modifies this`released
      ensures released == old(released) + multiset{h}
    {
      released := released + multiset{h};
    }

    /** A handle in hand is given back without having been stored. */
    method DropPkey(h: nat)
      requires Sound(Some(h), null)
      modifies this`released
      ensures Sound(None, null)
    {
      hide Owned;
      assert released[h] + Owned(Slots(), h) + 1 == if h < created then 1 else 0;
      FreePkey(h);
      assert Slots() == old(Slots());
    }

    // -------------------------------------------------------------- release

    /** One turn of the loop in nxe_jwx_jwks_cleanup. */
    method ReleaseSlot(j: Keyset, ghost x: nat, i: nat)
      requires Sound(None, null)
      requires x < |chain| && chain[x] == j && i < |j.slots|
      modifies this`released, j`slots
      ensures Sound(None, null)
      ensures |j.slots| == old(|j.slots|)
      ensures j.slots == old(j.slots)[i := Slot(old(j.slots)[i].key.(pkey := None, secret := []), None)]
    {
      hide Account, Linked;
      var s := j.slots[i];
      var t := Slot(s.key.(pkey := None, secret := []), None);
      ghost var before := Slots();
      AccountRelease(released, before, x, i, t, created);
      if s.handle.Some? {  // k->pkey != NULL
        FreePkey(s.handle.value);
      }
      j.slots := j.slots[i := t];
      assert Slots() == before[x := before[x][i := t]];
    }

    /** nxe_jwx_jwks_cleanup. */
    method Cleanup(j: Keyset, ghost x: nat)
      requires Sound(None, null)
      requires x < |chain| && chain[x] == j
      modifies this`released, j`slots
      ensures Sound(None, null) && j.Empty()
    {
      hide Account, Linked;
      var i := 0;
      while i < j.nkeys
        invariant 0 <= i <= j.nkeys
        invariant Sound(None, null)
        invariant |j.slots| == old(|j.slots|)
        invariant forall k :: 0 <= k < i ==> j.slots[k].handle.None?
      {
        ReleaseSlot(j, x, i);
        i := i + 1;
      }
    }

    /** nxe_jwx_jwks_free: disarm, then release; any number of calls. */
    method Free(j: Keyset, ghost x: nat)
      requires Valid()
      requires x < |chain| && chain[x] == j
      modifies this`released, j.cln, j`slots
      ensures Valid()
      ensures j.cln != null && !j.cln.armed && j.Empty()
    {
      hide Account, Linked;
      if j.cln != null {
        j.cln.armed := false;
      }
      assert Slots() == old(Slots());
      Cleanup(j, x);
    }

    /** ngx_destroy_pool: the armed handlers, last registered first. */
    method Destroy()
      requires Valid()
      modifies this`released, chain
      ensures forall h: nat :: released[h] == if h < created then 1 else 0
    {
      hide Account, Linked;
      var c := cleanup;
      ghost var n := |nodes|;
      assert nodes[..n] == nodes;
      while c != null
        invariant 0 <= n <= |nodes| && Linked(c, nodes[..n])
        invariant Valid()
        invariant forall x :: n <= x < |chain| ==> chain[x].Empty()
        decreases n
      {
        LinkedStep(c, nodes, n);
        n := n - 1;
        var next := c.next;
        if c.armed {
          Cleanup(c.data, n);
        }
        c := next;
      }
      LinkedStep(c, nodes, n);
      AccountSettled(released, Slots(), created);
    }

    // -------------------------------------------------------------- parsing

    /** The next slot may be written to; while it holds no handle it may as well be closed. */
    lemma OpenSlot(j: Keyset, x: nat)
      requires x < |chain| && chain[x] == j && j.nkeys < |j.slots|
      ensures Sound(None, null) ==> Sound(None, j)
      ensures Sound(None, j) && j.slots[j.nkeys].handle.None? ==> Sound(None, null)
    {
    }

    /** A write to one slot: the handle in it stays, or the one in hand goes in. */
    method PutSlot(j: Keyset, ghost x: nat, t: Slot, ghost inHand: Option<nat>)
      requires Sound(inHand, if inHand.None? then j else null)
      requires x < |chain| && chain[x] == j && j.nkeys < |j.slots|
      requires t.handle == if inHand.Some? then inHand else j.slots[j.nkeys].handle
      modifies j`slots
      ensures Sound(None, j)
      ensures j.slots == old(j.slots)[j.nkeys := t]
    {
      hide Account, Linked;
      ghost var before := Slots();
      if inHand.Some? {
        AccountStore(released, before, x, j.nkeys, t, inHand, created);
      } else {
        AccountRewrite(released, before, x, j.nkeys, t, created);
      }
      j.slots := j.slots[j.nkeys := t];
      assert Slots() == before[x := before[x][j.nkeys := t]];
    }

    /** One more keyset was registered. */
    twostate predicate Grown(before: seq<Keyset>, had: seq<CleanupNode>)
      reads this
    {
      && |chain| == |nodes| == |before| + 1 == |had| + 1
      && chain[..|before|] == before && nodes[..|had|] == had
      && fresh(chain[|before|]) && fresh(nodes[|had|])
    }

    /** nxe_jwx_jwks_alloc; null when an allocation fails. */
    method Alloc(capacity: nat) returns (j: Keyset?)
      requires Valid()
      modifies this`cleanup, this`chain, this`nodes, mem
      ensures Valid() && mem.asked >= old(mem.asked)
      ensures j == null ==> Refused(mem.grants, old(mem.asked), mem.asked)
      ensures j == null ==> chain == old(chain) && nodes == old(nodes)
      ensures j != null ==> fresh(j) && fresh(j.cln) && chain == old(chain) + [j] && nodes == old(nodes) + [j.cln]
      ensures j != null ==> j.slots == seq(capacity, _ => ZERO_SLOT) && j.nkeys == 0 && Armed(j)
    {
      hide Account, Linked;
      var ok := mem.Allocate();
      if !ok {
        return null;
      }
      j := new Keyset(capacity);
      Register(j);
    }

    /** ngx_pool_cleanup_add for an empty keyset. */
    method Register(j: Keyset)
      requires Valid() && j !in chain && j.nkeys == 0
      requires forall i :: 0 <= i < |j.slots| ==> j.slots[i] == ZERO_SLOT
      modifies this`cleanup, this`chain, this`nodes, j`cln
      ensures Valid() && Armed(j) && fresh(j.cln)
      ensures chain == old(chain) + [j] && nodes == old(nodes) + [j.cln]
    {
      hide Account, Linked;
      ghost var before := Slots();
      AccountAppend(released, before, j.slots, created);
      var c := new CleanupNode(j, cleanup);
      LinkedPush(c, nodes);
      j.cln := c;
      cleanup := c;
      chain, nodes := chain + [j], nodes + [c];
      assert Slots() == before + [j.slots];
    }

    /** ngx_memzero of the next slot, which holds no handle. */
    method ClearSlot(j: Keyset, ghost x: nat)
      requires Sound(None, null) && x < |chain| && chain[x] == j && j.nkeys < |j.slots|
      modifies j`slots
      ensures Sound(None, j) && j.slots == old(j.slots)[j.nkeys := ZERO_SLOT]
    {
      PutSlot(j, x, ZERO_SLOT, None);
    }

    /** nxe_jwx_parse_rsa, _ec, _okp and _oct on the next slot, whose labels are already there. */
    method ParseMaterial(env: Env, j: Keyset, ghost x: nat, kty: Kty, jwk: Json) returns (rc: Rc)
      requires Sound(None, j) && jwk.Object?
      requires x < |chain| && chain[x] == j
      requires j.slots[j.nkeys].handle == None && j.slots[j.nkeys].key.pkey == None
      modifies this`created, j`slots
      ensures Sound(None, if rc == Ok then j else null)
      ensures |j.slots| == old(|j.slots|) && j.slots[..j.nkeys] == old(j.slots[..j.nkeys])
      ensures match WithMaterial(env, kty, old(j.slots[j.nkeys].key), jwk) {
        case Usable(k) => rc == Ok && j.slots[j.nkeys].key == k
        case Skip => rc == Declined
        case Fail => rc == Error
      }
      ensures rc == Ok ==> Owning(j.slots[j.nkeys])
    {
      hide Account, Linked, PartFor, B64Field, Thumbprint.WellTyped;
      var k := j.slots[j.nkeys].key;
      if kty == OCT {
        var secret := B64Field(jwk, "k");
        if secret.Broken? {
          return Error;
        }
        if secret.Absent? || secret.value == [] {
          return Declined;
        }
        PutSlot(j, x, Slot(k.(kty := OCT, secret := secret.value), None), None);
      } else {
        var part := PartFor(env, kty, k.crv, jwk);
        if part.Declines? {
          return Declined;
        }
        if part.Errs? {
          return Error;
        }
        var h := NewPkey();
        PutSlot(j, x, Slot(k.(kty := kty, pkey := Some(part.pkey)), Some(h)), Some(h));
      }
      return Ok;
    }

    /**
     * nxe_jwx_parse_one_key into the next slot, which it clears first. oom says
     * that an allocation failed on the way: either the entry is a hard error, or
     * only its thumbprint is missing.
     */
    method ParseOneKey(env: Env, j: Keyset, ghost x: nat, jwk: Json) returns (rc: Rc, oom: bool)
      requires Sound(None, null) && jwk.Object?
      requires x < |chain| && chain[x] == j && j.nkeys < |j.slots|
      modifies this`created, j`slots, mem
      ensures Sound(None, if rc == Ok then j else null) && mem.asked >= old(mem.asked)
      ensures |j.slots| == old(|j.slots|) && j.slots[..j.nkeys] == old(j.slots[..j.nkeys])
      ensures oom ==> Refused(mem.grants, old(mem.asked), mem.asked)
      ensures (rc == Error && oom) || match ReadJwk(env, jwk) {
        case Usable(k) => rc == Ok && j.slots[j.nkeys].key == if oom then k.(thumbprint := []) else k
        case Skip => rc == Declined
        case Fail => rc == Error
      }
      ensures rc == Ok ==> Owning(j.slots[j.nkeys])
    {
      hide Account, Linked, Sound, Ascii, WithMaterial, Thumbprint.ThumbprintOf, Thumbprint.WellTyped,
           KtyNamed, StringMember, HasString;
      oom := false;
      OpenSlot(j, x);
      ClearSlot(j, x);
      OpenSlot(j, x);
      if !HasString(jwk, "kty") {
        return Declined, oom;
      }
      if StringMember(jwk, "use") == Ascii("enc") {
        return Declined, oom;
      }
      var kid := StringMember(jwk, "kid");
      PutSlot(j, x, Slot(ZERO_KEY.(kid := kid), None), None);
      OpenSlot(j, x);
      if HasString(jwk, "kid") && kid == [] {
        return Declined, oom;
      }
      var labelled := ZERO_KEY.(kid := kid, alg := StringMember(jwk, "alg"), crv := StringMember(jwk, "crv"));
      PutSlot(j, x, Slot(labelled, None), None);
      OpenSlot(j, x);
      var ok := mem.Allocate();
      if !ok {
        return Error, true;
      }
      rc := ParseMaterial(env, j, x, KtyNamed(env, StringMember(jwk, "kty")), jwk);
      if rc == Ok {
        MaterialKeepsThumbprint(env, KtyNamed(env, StringMember(jwk, "kty")), labelled, jwk);
        oom := FillSlot(env, j, x);
      }
    }

    /** The thumbprint of the key just built; a failed allocation leaves it empty. */
    method FillSlot(env: Env, j: Keyset, ghost x: nat) returns (oom: bool)
      requires Sound(None, j) && x < |chain| && chain[x] == j
      requires Thumbprint.WellTyped(j.slots[j.nkeys].key)
      requires Owning(j.slots[j.nkeys])
      modifies j`slots, mem
      ensures Sound(None, j) && Owning(j.slots[j.nkeys]) && mem.asked >= old(mem.asked)
      ensures oom ==> Refused(mem.grants, old(mem.asked), mem.asked) && j.slots == old(j.slots)
      ensures |j.slots| == old(|j.slots|) && j.slots[..j.nkeys] == old(j.slots[..j.nkeys])
      ensures forall i :: j.nkeys < i < |j.slots| ==> j.slots[i] == old(j.slots)[i]
      ensures !oom ==>
                var k := old(j.slots[j.nkeys].key);
                j.slots[j.nkeys].key == k.(thumbprint := Thumbprint.ThumbprintOf(env, k))
    {
      hide Account, Linked, Thumbprint.ThumbprintOf;
      var ok := mem.Allocate();
      if !ok {
        return true;
      }
      var s := j.slots[j.nkeys];
      var k := Thumbprint.FillThumbprint(env, s.key);
      PutSlot(j, x, Slot(k, s.handle), None);
      return false;
    }

    /** The body of the loop in nxe_jwx_jwks_parse: one more key, or none, or an error. */
    method TakeEntry(env: Env, j: Keyset, ghost x: nat, entry: Json) returns (rc: Rc, oom: bool)
      requires Valid() && Armed(j)
      requires x < |chain| && chain[x] == j && j.nkeys < |j.slots|
      modifies this`created, j`slots, j`nkeys, mem
      ensures Valid() && |j.slots| == old(|j.slots|) && mem.asked >= old(mem.asked)
      ensures old(j.nkeys) <= j.nkeys <= old(j.nkeys) + 1
      ensures oom ==> Refused(mem.grants, old(mem.asked), mem.asked)
      ensures (rc == Error && oom) || match ReadEntry(env, entry) {
        case Usable(k) => rc == Ok && j.Keys() == old(j.Keys()) + [if oom then k.(thumbprint := []) else k]
        case Skip => rc == Declined && j.Keys() == old(j.Keys())
        case Fail => rc == Error
      }
      ensures rc != Ok ==> j.Keys() == old(j.Keys())
    {
      hide Account, Linked, ReadJwk;
      if !entry.Object? {
        return Declined, false;
      }
      rc, oom := ParseOneKey(env, j, x, entry);
      KeysPrefix(old(j.slots), j.slots, j.nkeys);
      if rc == Ok {
        CountSlot(j, x);
      }
    }

    /** nxe_jwx_jwks_parse. */
    method ParseJwks(env: Env, doc: bytes) returns (r: Keyset?, oom: bool)
      requires Valid()
      modifies this`cleanup, this`chain, this`nodes, this`created, mem
      ensures Valid() && mem.asked >= old(mem.asked)
      ensures oom ==> Refused(mem.grants, old(mem.asked), mem.asked)
      ensures (chain == old(chain) && nodes == old(nodes)) || Grown(old(chain), old(nodes))
      ensures r != null ==> fresh(r) && chain == old(chain) + [r]
      ensures r != null ==> 0 < r.nkeys <= |r.slots| && r.nkeys <= MAX_JWKS_KEYS
      ensures r == null ==> oom || JwksKeys(env, doc) == None
      ensures r != null ==> JwksKeys(env, doc).Some? && Blanked(r.Keys(), JwksKeys(env, doc).value)
      ensures r != null && !oom ==> JwksKeys(env, doc) == Some(r.Keys())
    {
      hide Account, Linked, Sound, ReadEntry, Collect, Blanked, Refused;
      oom := false;
      var found := JwksEntries(env, doc);
      if found.None? {
        return null, oom;
      }
      var entries := found.value;
      ghost var ps := ReadAll(env, entries);
      CollectNone();
      var j := Alloc(if |entries| > 0 then |entries| else 1);
      if j == null {
        return null, true;
      }
      var i := 0;
      assert ps[..0] == [] && KeysIn(j.slots, 0) == [];
      BlankedStart();
      while i < |entries|
        invariant 0 <= i <= |entries| <= |j.slots| && j.nkeys <= i
        invariant Valid() && Armed(j) && chain == old(chain) + [j] && nodes == old(nodes) + [j.cln]
        invariant mem.asked >= old(mem.asked) && (oom ==> Refused(mem.grants, old(mem.asked), mem.asked))
        invariant Collect(ps[..i]).Some? && Blanked(j.Keys(), Collect(ps[..i]).value)
        invariant oom || Collect(ps[..i]) == Some(j.Keys())
      {
        CollectStep(ps, i);
        ghost var had, asked := j.Keys(), mem.asked;
        var rc, lost := TakeEntry(env, j, |chain| - 1, entries[i]);
        RefusedSoFar(mem.grants, old(mem.asked), asked, mem.asked);
        oom := oom || lost;
        if rc == Error {
          if !lost {
            CollectFails(ps, i);
          }
          return null, oom;
        }
        if rc == Ok {
          BlankedStep(had, Collect(ps[..i]).value, ps[i].key, lost);
        }
        i := i + 1;
      }
      assert ps[..i] == ps;
      BlankedLength(j.Keys(), Collect(ps).value);
      if j.nkeys == 0 {
        return null, oom;
      }
      return j, oom;
    }

    // -------------------------------------------------------------- keyval documents

    /** The body of the loop in nxe_jwx_jwks_parse_keyval. The slot is not cleared first. */
    method TakePem(env: Env, j: Keyset, ghost x: nat, entry: (bytes, Json)) returns (rc: Rc, oom: bool)
      requires Valid() && Armed(j)
      requires x < |chain| && chain[x] == j && j.nkeys < |j.slots|
      requires forall i :: j.nkeys <= i < |j.slots| ==> j.slots[i] == ZERO_SLOT
      modifies this`created, this`released, j`slots, j`nkeys, mem
      ensures Valid() && |j.slots| == old(|j.slots|) && mem.asked >= old(mem.asked)
      ensures oom ==> Refused(mem.grants, old(mem.asked), mem.asked)
      ensures old(j.nkeys) <= j.nkeys <= old(j.nkeys) + 1
      ensures rc != Error ==> forall i :: j.nkeys <= i < |j.slots| ==> j.slots[i] == ZERO_SLOT
      ensures (rc == Error && oom) || match ReadPem(env, entry) {
        case Usable(k) => rc == Ok && j.Keys() == old(j.Keys()) + [if oom then k.(thumbprint := []) else k]
        case Skip => rc == Declined && j.Keys() == old(j.Keys())
        case Fail => false
      }
      ensures rc != Ok ==> j.Keys() == old(j.Keys())
    {
      hide Account, Linked, Sound, Thumbprint.ThumbprintOf, PemKey, Supported;
      var (kid, value) := entry;
      if kid == [] || !value.String? || value.text == [] {
        return Declined, false;
      }
      var loaded := env.loadPublic(value.text);
      if loaded.None? {
        return Declined, false;
      }
      rc, oom := KeepPem(env, j, x, kid, loaded.value);
    }

    /** A loaded key is in hand until it is stored; an unsupported one is given back. */
    method KeepPem(env: Env, j: Keyset, ghost x: nat, kid: bytes, pkey: PKey) returns (rc: Rc, oom: bool)
      requires Sound(None, null)
      requires x < |chain| && chain[x] == j && j.nkeys < |j.slots|
      requires forall i :: j.nkeys <= i < |j.slots| ==> j.slots[i] == ZERO_SLOT
      modifies this`created, this`released, j`slots, j`nkeys, mem
      ensures Sound(None, null) && |j.slots| == old(|j.slots|) && mem.asked >= old(mem.asked)
      ensures oom ==> Refused(mem.grants, old(mem.asked), mem.asked)
      ensures old(j.nkeys) <= j.nkeys <= old(j.nkeys) + 1
      ensures rc != Error ==> forall i :: j.nkeys <= i < |j.slots| ==> j.slots[i] == ZERO_SLOT
      ensures rc == Error ==> oom
      ensures rc == Declined ==> !Supported(pkey) && !oom
      ensures rc == Ok ==>
                Supported(pkey)
                && var k := PemKey(kid, pkey);
                   j.Keys() == old(j.Keys()) + [k.(thumbprint := if oom then [] else Thumbprint.ThumbprintOf(env, k))]
      ensures rc != Ok ==> j.Keys() == old(j.Keys())
    {
      hide Account, Linked, Thumbprint.ThumbprintOf, PemKey, CurveOf, Ascii;
      var h := NewPkey();
      var kty := KtyOf(pkey);
      var curve := CurveOf(pkey);
      CurvesOfTypes(pkey);
      if kty == UNKNOWN || (kty != RSA && curve.None?) {
        DropPkey(h);
        return Declined, false;
      }
      var ok := mem.Allocate();
      if !ok {
        DropPkey(h);
        return Error, true;
      }
      oom := StorePem(env, j, x, kid, pkey, h);
      rc := Ok;
    }

    /** The fields of the next slot are written over whatever stands in it, and the slot is counted. */
    method StorePem(env: Env, j: Keyset, ghost x: nat, kid: bytes, pkey: PKey, h: nat) returns (oom: bool)
      requires Sound(Some(h), null) && Supported(pkey)
      requires x < |chain| && chain[x] == j && j.nkeys < |j.slots|
      requires j.slots[j.nkeys] == ZERO_SLOT
      modifies j`slots, j`nkeys, mem
      ensures Sound(None, null) && |j.slots| == old(|j.slots|) && j.nkeys == old(j.nkeys) + 1
      ensures mem.asked >= old(mem.asked) && (oom ==> Refused(mem.grants, old(mem.asked), mem.asked))
      ensures forall i :: j.nkeys <= i < |j.slots| ==> j.slots[i] == old(j.slots)[i]
      ensures var k := PemKey(kid, pkey);
        j.Keys() == old(j.Keys()) + [k.(thumbprint := if oom then [] else Thumbprint.ThumbprintOf(env, k))]
    {
      hide Account, Linked, Thumbprint.ThumbprintOf, Thumbprint.WellTyped, CurveOf, Ascii;
      var k := j.slots[j.nkeys].key;
      CurvesOfTypes(pkey);
      if KtyOf(pkey) != RSA {
        k := k.(crv := Ascii(CurveOf(pkey).value.crv));
      }
      k := k.(pkey := Some(pkey), kty := KtyOf(pkey), kid := kid);
      assert k == PemKey(kid, pkey);
      PutSlot(j, x, Slot(k, Some(h)), Some(h));
      oom := FillSlot(env, j, x);
      KeysPrefix(old(j.slots), j.slots, j.nkeys);
      CountSlot(j, x);
    }

    /** nkeys++: the open slot becomes a key. */
    method CountSlot(j: Keyset, ghost x: nat)
      requires Sound(None, j) && x < |chain| && chain[x] == j && Owning(j.slots[j.nkeys])
      modifies j`nkeys
      ensures Sound(None, null)
      ensures j.nkeys == old(j.nkeys) + 1
      ensures j.Keys() == old(j.Keys()) + [j.slots[j.nkeys - 1].key]
    {
      hide Account, Linked;
      ghost var all := Slots();
      j.nkeys := j.nkeys + 1;
      assert Slots() == all;
    }

    /** nxe_jwx_jwks_parse_keyval. */
    method ParseKeyval(env: Env, doc: bytes) returns (r: Keyset?, oom: bool)
      requires Valid()
      modifies this`cleanup, this`chain, this`nodes, this`created, this`released, mem
      ensures Valid() && mem.asked >= old(mem.asked)
      ensures oom ==> Refused(mem.grants, old(mem.asked), mem.asked)
      ensures (chain == old(chain) && nodes == old(nodes)) || Grown(old(chain), old(nodes))
      ensures r != null ==> fresh(r) && chain == old(chain) + [r]
      ensures r != null ==> 0 < r.nkeys <= |r.slots| && r.nkeys <= MAX_JWKS_KEYS
      ensures r == null ==> oom || KeyvalKeys(env, doc) == None
      ensures r != null ==> KeyvalKeys(env, doc).Some? && Blanked(r.Keys(), KeyvalKeys(env, doc).value)
      ensures r != null && !oom ==> KeyvalKeys(env, doc) == Some(r.Keys())
    {
      hide Account, Linked, Sound, ReadPem, Collect, Blanked, Refused;
      oom := false;
      var found := KeyvalEntries(env, doc);
      if found.None? {
        return null, oom;
      }
      var entries := found.value;
      ghost var ps := ReadAllPem(env, entries);
      CollectNone();
      var j := Alloc(|entries|);
      if j == null {
        return null, true;
      }
      var i := 0;
      assert ps[..0] == [] && KeysIn(j.slots, 0) == [];
      BlankedStart();
      while i < |entries|
        invariant 0 <= i <= |entries| == |j.slots| && j.nkeys <= i
        invariant Valid() && Armed(j) && chain == old(chain) + [j] && nodes == old(nodes) + [j.cln]
        invariant forall k :: j.nkeys <= k < |j.slots| ==> j.slots[k] == ZERO_SLOT
        invariant mem.asked >= old(mem.asked) && (oom ==> Refused(mem.grants, old(mem.asked), mem.asked))
        invariant Collect(ps[..i]).Some? && Blanked(j.Keys(), Collect(ps[..i]).value)
        invariant oom || Collect(ps[..i]) == Some(j.Keys())
      {
        CollectStep(ps, i);
        ghost var had, asked := j.Keys(), mem.asked;
        var rc, lost := TakePem(env, j, |chain| - 1, entries[i]);
        RefusedSoFar(mem.grants, old(mem.asked), asked, mem.asked);
        oom := oom || lost;
        if rc == Error {
          return null, oom;
        }
        if rc == Ok {
          BlankedStep(had, Collect(ps[..i]).value, ps[i].key, lost);
        }
        i := i + 1;
      }
      assert ps[..i] == ps;
      BlankedLength(j.Keys(), Collect(ps).value);
      if j.nkeys == 0 {
        return null, oom;
      }
      return j, oom;
    }

    // -------------------------------------------------------------- whole runs

    /** One call; parsed are the keysets handed out so far. */
    method Perform(env: Env, call: Call, parsed: seq<Keyset>) returns (now: seq<Keyset>)
      requires Valid() && forall k :: 0 <= k < |parsed| ==> parsed[k] in chain
      modifies this, chain, nodes, mem
      ensures Valid() && mem.asked >= old(mem.asked) && forall k :: 0 <= k < |now| ==> now[k] in chain
      ensures forall x :: 0 <= x < |chain| ==> fresh(chain[x]) || chain[x] in old(chain)
      ensures forall x :: 0 <= x < |nodes| ==> fresh(nodes[x]) || nodes[x] in old(nodes)
      ensures parsed <= now && |now| <= |parsed| + 1
      ensures |now| > |parsed| ==>
                now[|parsed|].nkeys <= |now[|parsed|].slots| && KeysOf(env, call).Some?
                && Blanked(now[|parsed|].Keys(), KeysOf(env, call).value)
      ensures |now| == |parsed| ==> KeysOf(env, call).None? || Refused(mem.grants, old(mem.asked), mem.asked)
      ensures call.Free? && call.k < |parsed| ==> !Armed(parsed[call.k]) && parsed[call.k].Empty()
    {
      hide Account, Linked, JwksKeys, KeyvalKeys, Registered, Sound, Blanked, Refused;
      now := parsed;
      match call {
        case ParseJwks(doc) =>
          var r, oom := ParseJwks(env, doc);
          if r != null { now := now + [r]; }
        case ParseKeyval(doc) =>
          var r, oom := ParseKeyval(env, doc);
          if r != null { now := now + [r]; }
        case Free(k) =>
          if k < |parsed| {
            ghost var x :| 0 <= x < |chain| && chain[x] == parsed[k];
            NodeOf(x);
            Free(parsed[k], x);
          }
      }
    }

    /**
     * Any sequence of parses and early releases, then the teardown of the pool:
     * every handle ever made is released exactly once.
     */
    method Run(env: Env, calls: seq<Call>) returns (parsed: seq<Keyset>)
      requires Valid()
      modifies this, chain, nodes, mem
      ensures |parsed| <= |Accepted(env, calls)|
      ensures |parsed| == |Accepted(env, calls)| || Refused(mem.grants, old(mem.asked), mem.asked)
      ensures forall h: nat :: released[h] == if h < created then 1 else 0
    {
      hide Account, Linked, Registered, Sound;
      ghost var first, had := chain, nodes;
      parsed := [];
      var i := 0;
      assert calls[..0] == [];
      while i < |calls|
        invariant 0 <= i <= |calls|
        invariant Valid()
        invariant forall x :: 0 <= x < |chain| ==> fresh(chain[x]) || chain[x] in first
        invariant forall x :: 0 <= x < |nodes| ==> fresh(nodes[x]) || nodes[x] in had
        invariant forall k :: 0 <= k < |parsed| ==> parsed[k] in chain
        invariant mem.asked >= old(mem.asked)
        invariant |parsed| <= |Accepted(env, calls[..i])|
        invariant |parsed| == |Accepted(env, calls[..i])| || Refused(mem.grants, old(mem.asked), mem.asked)
      {
        assert calls[..i + 1][..i] == calls[..i];
        parsed := Perform(env, calls[i], parsed);
        i := i + 1;
      }
      assert calls[..i] == calls;
      Destroy();
    }

    lemma NodeOf(x: nat)
      requires Registered() && x < |chain|
      ensures |nodes| == |chain| && chain[x].cln == nodes[x]
    {
    }
  }

  /** One call a module makes; k counts the keysets it was handed so far. */
  datatype Call = ParseJwks(doc: bytes) | ParseKeyval(doc: bytes) | Free(k: nat)

  /** The keys a call is to store. */
  function KeysOf(env: Env, call: Call): Option<seq<Key>>
  {
    match call
    case ParseJwks(doc) => JwksKeys(env, doc)
    case ParseKeyval(doc) => KeyvalKeys(env, doc)
    case Free(_) => None
  }

  /** The keysets that the documents of a run ask for. */
  function Accepted(env: Env, calls: seq<Call>): seq<seq<Key>>
  {
    if calls == [] then []
    else
      var front, last := Accepted(env, calls[..|calls| - 1]), KeysOf(env, calls[|calls| - 1]);
      if last.Some? then front + [last.value] else front
  }

  lemma CurvesOfTypes(pkey: PKey)
    ensures Supported(pkey) <==> KtyOf(pkey) == RSA || (KtyOf(pkey) != UNKNOWN && CurveOf(pkey).Some?)
    ensures KtyOf(pkey) == RSA ==> CurveOf(pkey).None?
  {
  }

  /** The type-specific part leaves the thumbprint as it found it. */
  lemma MaterialKeepsThumbprint(env: Env, kty: Kty, k: Key, jwk: Json)
    requires jwk.Object? && k.pkey.None? && WithMaterial(env, kty, k, jwk).Usable?
    ensures WithMaterial(env, kty, k, jwk).key.thumbprint == k.thumbprint
  {
    hide PartFor, B64Field, Thumbprint.WellTyped;
  }

  lemma KeysPrefix(a: seq<Slot>, b: seq<Slot>, n: nat)
    requires n <= |a| == |b| && a[..n] == b[..n]
    ensures KeysIn(a, n) == KeysIn(b, n)
  {
    assert forall i :: 0 <= i < n ==> a[i] == a[..n][i] && b[i] == b[..n][i];
  }

  lemma CollectNone()
    ensures Collect([]) == Some([])
  {
  }
}
