/** The orchestrator's registration side (internal/api/server.go): the pending
    registry that announcing agents land in, and its promotion into the active
    inventory once the agent's finalize endpoint accepts the master public key. */
module Api {
  import opened Store
  import opened Text

  /** `Synced` is carried as the source carries it: written false, never read. */
  datatype HostEntry = HostEntry(name: string, ip: string, synced: bool)

  /** Outcome of an HTTP POST: a transport error or a status code. */
  datatype PostResult = PostError | Status(code: int)

  /** Trust state of one address: Unknown -> Pending -> Active. */
  datatype HostState = Unknown | Pending | Active

  // ---------------------------------------------------------------------------
  // Registration address

  /** The registrant's address is the part of the transport's remote address
      before the first ':' (the whole address when it has no ':'). */
  function RegistrantIP(remoteAddr: string): (ip: string)
    ensures ':' !in ip
    ensures |ip| <= |remoteAddr| && ip == remoteAddr[..|ip|]
    ensures |ip| < |remoteAddr| ==> remoteAddr[|ip|] == ':'
  {
    Split(remoteAddr, ':')[0]
  }

  // ---------------------------------------------------------------------------
  // Specification of the registry documents

  predicate HasIP(doc: seq<HostEntry>, ip: string) {
    exists i :: 0 <= i < |doc| && doc[i].ip == ip
  }

  /** No address appears twice. */
  predicate UniqueIPs(doc: seq<HostEntry>) {
    forall i, j :: 0 <= i < j < |doc| ==> doc[i].ip != doc[j].ip
  }

  /** The document with every entry for `ip` dropped, the rest in order. */
  function WithoutIP(doc: seq<HostEntry>, ip: string): seq<HostEntry>
  {
    if doc == [] then []
    else
      var last := doc[|doc| - 1];
      WithoutIP(doc[..|doc| - 1], ip) + (if last.ip == ip then [] else [last])
  }

  /** The last entry for `ip`: the one a front-to-back scan that overwrites its
      match on every hit ends with. */
  function LastWithIP(doc: seq<HostEntry>, ip: string): (e: HostEntry)
    requires HasIP(doc, ip)
    ensures e.ip == ip
    ensures exists i :: 0 <= i < |doc| && doc[i] == e && forall j :: i < j < |doc| ==> doc[j].ip != ip
  {
    var n := |doc| - 1;
    if doc[n].ip == ip then doc[n]
    else
      assert HasIP(doc[..n], ip) by {
        var i :| 0 <= i < |doc| && doc[i].ip == ip;
        assert doc[..n][i] == doc[i];
      }
      var e := LastWithIP(doc[..n], ip);
      assert exists i :: 0 <= i < |doc| && doc[i] == e && forall j :: i < j < |doc| ==> doc[j].ip != ip by {
        var i :| 0 <= i < n && doc[..n][i] == e && forall j :: i < j < n ==> doc[..n][j].ip != ip;
        assert doc[i] == e;
        assert forall j :: i < j < |doc| ==> doc[j].ip != ip by {
          forall j | i < j < |doc| ensures doc[j].ip != ip {
            if j < n { assert doc[..n][j] == doc[j]; }
          }
        }
      }
      e
  }

  /** The pending document after an announcement: unchanged when the address is
      already pending, otherwise one entry appended. */
  function Admit(doc: seq<HostEntry>, name: string, ip: string): seq<HostEntry>
  {
    if HasIP(doc, ip) then doc else doc + [HostEntry(name, ip, false)]
  }

  function StateOf(pending: seq<HostEntry>, active: seq<HostEntry>, ip: string): HostState
  {
    if HasIP(active, ip) then Active else if HasIP(pending, ip) then Pending else Unknown
  }

  // ---------------------------------------------------------------------------
  // Properties of the registry operations

  /** Announcing an address twice is announcing it once, whatever the second name. */
  lemma AdmitIdempotent(doc: seq<HostEntry>, name: string, name': string, ip: string)
    ensures Admit(Admit(doc, name, ip), name', ip) == Admit(doc, name, ip)
  {
    var d := Admit(doc, name, ip);
    assert d[|d| - 1].ip == ip || HasIP(doc, ip);
  }

  /** Announcements keep every address pending at most once. */
  lemma AdmitKeepsUnique(doc: seq<HostEntry>, name: string, ip: string)
    requires UniqueIPs(doc)
    ensures UniqueIPs(Admit(doc, name, ip))
    ensures HasIP(Admit(doc, name, ip), ip)
  {
    var d := Admit(doc, name, ip);
    if !HasIP(doc, ip) {
      assert d[|doc|].ip == ip;
      forall i, j | 0 <= i < j < |d| ensures d[i].ip != d[j].ip {
        if j == |doc| {
          assert d[i] == doc[i];
        }
      }
    }
  }

  /** Removal keeps exactly the entries of other addresses. */
  lemma {:induction false} WithoutIPMembers(doc: seq<HostEntry>, ip: string)
    ensures forall e :: e in WithoutIP(doc, ip) <==> e in doc && e.ip != ip
  {
    if doc != [] {
      var n := |doc| - 1;
      WithoutIPMembers(doc[..n], ip);
      assert doc == doc[..n] + [doc[n]];
    }
  }

  /** Removal distributes over concatenation, so the survivors keep their order. */
  lemma {:induction false} WithoutIPAppend(a: seq<HostEntry>, b: seq<HostEntry>, ip: string)
    ensures WithoutIP(a + b, ip) == WithoutIP(a, ip) + WithoutIP(b, ip)
  {
    if b == [] {
      assert a + b == a;
    } else {
      var n := |b| - 1;
      WithoutIPAppend(a, b[..n], ip);
      assert (a + b)[..|a + b| - 1] == a + b[..n];
      assert (a + b)[|a + b| - 1] == b[n];
    }
  }

  /** Removing an address that is not there changes nothing. */
  lemma {:induction false} WithoutAbsentIP(doc: seq<HostEntry>, ip: string)
    requires !HasIP(doc, ip)
    ensures WithoutIP(doc, ip) == doc
  {
    if doc != [] {
      var n := |doc| - 1;
      assert !HasIP(doc[..n], ip) by {
        forall i | 0 <= i < n ensures doc[..n][i].ip != ip {
          assert doc[..n][i] == doc[i];
        }
      }
      WithoutAbsentIP(doc[..n], ip);
      assert doc == doc[..n] + [doc[n]];
    }
  }

  /** Accepting moves the address to Active and leaves every other address where it was. */
  lemma AcceptTransition(pending: seq<HostEntry>, active: seq<HostEntry>, ip: string, alias: string, other: string)
    requires other != ip
    ensures StateOf(WithoutIP(pending, ip), active + [HostEntry(alias, ip, false)], ip) == Active
    ensures !HasIP(WithoutIP(pending, ip), ip)
    ensures StateOf(WithoutIP(pending, ip), active + [HostEntry(alias, ip, false)], other)
         == StateOf(pending, active, other)
  {
    var p := WithoutIP(pending, ip);
    var a := active + [HostEntry(alias, ip, false)];
    WithoutIPMembers(pending, ip);
    assert a[|active|].ip == ip;
    assert !HasIP(p, ip) by {
      forall i | 0 <= i < |p| ensures p[i].ip != ip {
        assert p[i] in p;
      }
    }
    assert HasIP(p, other) <==> HasIP(pending, other) by {
      if HasIP(p, other) {
        var i :| 0 <= i < |p| && p[i].ip == other;
        assert p[i] in pending;
      }
      if HasIP(pending, other) {
        var i :| 0 <= i < |pending| && pending[i].ip == other;
        assert pending[i] in p;
      }
    }
    assert HasIP(a, other) <==> HasIP(active, other) by {
      if HasIP(a, other) {
        var i :| 0 <= i < |a| && a[i].ip == other;
        assert i < |active| && active[i].ip == other;
      }
      if HasIP(active, other) {
        var i :| 0 <= i < |active| && active[i].ip == other;
        assert a[i].ip == other;
      }
    }
  }

  /** Announcing an unknown address makes it Pending; no other address moves. */
  lemma AnnounceTransition(pending: seq<HostEntry>, active: seq<HostEntry>, name: string, ip: string, other: string)
    requires other != ip
    requires StateOf(pending, active, ip) == Unknown
    ensures StateOf(Admit(pending, name, ip), active, ip) == Pending
    ensures StateOf(Admit(pending, name, ip), active, other) == StateOf(pending, active, other)
  {
    var p := Admit(pending, name, ip);
    assert p[|pending|].ip == ip;
    assert HasIP(p, other) <==> HasIP(pending, other) by {
      if HasIP(p, other) {
        var i :| 0 <= i < |p| && p[i].ip == other;
        assert i < |pending| && pending[i].ip == other;
      }
      if HasIP(pending, other) {
        var i :| 0 <= i < |pending| && pending[i].ip == other;
        assert p[i].ip == other;
      }
    }
  }

  // ---------------------------------------------------------------------------
  // The two documents and the operations on them

  /** One outcome of a per-host finalize POST during the re-handshake pass. */
  datatype Attempt = Attempt(name: string, ip: string, result: PostResult)

  datatype HandshakePass = EmptyInventory | KeyUnreadable | Attempted(attempts: seq<Attempt>)

  datatype AcceptOutcome = NotPending | PublicKeyMissing | HandshakeFailed | Accepted(alias: string)

  /** One more entry of the acceptance scan: it is a match or it is kept, and a
      match becomes the scan's target. */
  lemma ScanStep(doc: seq<HostEntry>, i: nat, ip: string)
    requires i < |doc|
    ensures HasIP(doc[..i + 1], ip) <==> HasIP(doc[..i], ip) || doc[i].ip == ip
    ensures WithoutIP(doc[..i + 1], ip) == WithoutIP(doc[..i], ip) + (if doc[i].ip == ip then [] else [doc[i]])
    ensures doc[i].ip == ip ==> LastWithIP(doc[..i + 1], ip) == doc[i]
    ensures doc[i].ip != ip && HasIP(doc[..i], ip) ==> LastWithIP(doc[..i + 1], ip) == LastWithIP(doc[..i], ip)
  {
    var q := doc[..i + 1];
    assert q[..i] == doc[..i];
    assert q[i] == doc[i];
    if HasIP(q, ip) && doc[i].ip != ip {
      var j :| 0 <= j < i + 1 && q[j].ip == ip;
      assert doc[..i][j].ip == ip;
    }
    if HasIP(doc[..i], ip) {
      var j :| 0 <= j < i && doc[..i][j].ip == ip;
      assert q[j].ip == ip;
    }
  }

  /** The pending-registration document and the active inventory document. */
  class Registry {
    var pendingDoc: Document<HostEntry>
    var activeDoc: Document<HostEntry>

    function Pending(): seq<HostEntry>
      reads this
    {
      Load(pendingDoc)
    }

    function Active(): seq<HostEntry>
      reads this
    {
      Load(activeDoc)
    }

    constructor (pending: Document<HostEntry>, active: Document<HostEntry>)
      ensures pendingDoc == pending && activeDoc == active
    {
      pendingDoc := pending;
      activeDoc := active;
    }

    /** Daemon start: the pending document is rewritten empty. */
    method ResetPending()
      modifies this
      ensures pendingDoc == Stored([]) && Pending() == []
      ensures activeDoc == old(activeDoc)
    {
      pendingDoc := Stored([]);
    }

    /** Records an announcement unless the address is already pending; the
        document is only written when an entry is added. */
    method SavePending(name: string, ip: string)
      modifies this
      ensures activeDoc == old(activeDoc)
      ensures HasIP(old(Pending()), ip) ==> pendingDoc == old(pendingDoc)
      ensures !HasIP(old(Pending()), ip) ==> pendingDoc == Stored(old(Pending()) + [HostEntry(name, ip, false)])
      ensures Pending() == Admit(old(Pending()), name, ip)
    {
      var inv := Pending();
      var i := 0;
      while i < |inv|
        invariant 0 <= i <= |inv|
        invariant forall j :: 0 <= j < i ==> inv[j].ip != ip
      {
        if inv[i].ip == ip {
          return;
        }
        i := i + 1;
      }
      pendingDoc := Stored(inv + [HostEntry(name, ip, false)]);
    }

    /** The `/register` handler: the address comes from the transport, the name
        from the request. */
    method Register(hostname: string, remoteAddr: string)
      modifies this
      ensures activeDoc == old(activeDoc)
      ensures Pending() == Admit(old(Pending()), hostname, RegistrantIP(remoteAddr))
      ensures HasIP(Pending(), RegistrantIP(remoteAddr))
    {
      var ip := RegistrantIP(remoteAddr);
      SavePending(hostname, ip);
      assert HasIP(Pending(), ip) by {
        var p := Pending();
        if !HasIP(old(Pending()), ip) {
          assert p[|p| - 1].ip == ip;
        }
      }
    }

    /** Operator acceptance of a pending address. `typed` is the alias read at
        the prompt, `pubKey` the read of the master public key, `finalize` the
        agent's answer to the key POST. Nothing is written unless the agent
        answers 200. */
    method AcceptHost(childIP: string, typed: string, pubKey: Option<Bytes>,
                      finalize: (string, Bytes) -> PostResult)
      returns (outcome: AcceptOutcome)
      modifies this
      ensures !HasIP(old(Pending()), childIP) ==> outcome == NotPending
      ensures HasIP(old(Pending()), childIP) && pubKey.None? ==> outcome == PublicKeyMissing
      ensures HasIP(old(Pending()), childIP) && pubKey.Some? && finalize(childIP, pubKey.value) != Status(200)
              ==> outcome == HandshakeFailed
      ensures !outcome.Accepted? ==> pendingDoc == old(pendingDoc) && activeDoc == old(activeDoc)
      ensures outcome.Accepted? <==>
              HasIP(old(Pending()), childIP) && pubKey.Some? && finalize(childIP, pubKey.value) == Status(200)
      ensures outcome.Accepted? ==>
              && outcome.alias == (if typed == "" then LastWithIP(old(Pending()), childIP).name else typed)
              && activeDoc == Stored(old(Active()) + [HostEntry(outcome.alias, childIP, false)])
              && pendingDoc == Stored(WithoutIP(old(Pending()), childIP))
    {
      var pending := Pending();
      var inventory := Active();
      var target: HostEntry := HostEntry("", "", false);
      var newPending: seq<HostEntry> := [];
      var found := false;
      var i := 0;
      while i < |pending|
        invariant 0 <= i <= |pending|
        invariant found == HasIP(pending[..i], childIP)
        invariant newPending == WithoutIP(pending[..i], childIP)
        invariant found ==> target == LastWithIP(pending[..i], childIP)
        invariant pendingDoc == old(pendingDoc) && activeDoc == old(activeDoc)
      {
        var h := pending[i];
        ScanStep(pending, i, childIP);
        if h.ip == childIP {
          target := h;
          found := true;
        } else {
          newPending := newPending + [h];
        }
        i := i + 1;
      }
      assert pending[..|pending|] == pending;

      if !found {
        return NotPending;
      }

      var alias := typed;
      if alias == "" {
        alias := target.name;
      }

      if pubKey.None? {
        return PublicKeyMissing;
      }

      var resp := finalize(childIP, pubKey.value);
      if resp != Status(200) {
        return HandshakeFailed;
      }

      activeDoc := Stored(inventory + [HostEntry(alias, childIP, false)]);
      pendingDoc := Stored(newPending);
      outcome := Accepted(alias);
    }

    /** Re-pushes the master public key to every active entry, in order,
        carrying on past failures. Writes neither document. */
    method ProactiveHandshake(pubKey: Option<Bytes>, finalize: (string, Bytes) -> PostResult)
      returns (pass: HandshakePass)
      ensures Active() == [] ==> pass == EmptyInventory
      ensures Active() != [] && pubKey.None? ==> pass == KeyUnreadable
      ensures Active() != [] && pubKey.Some? ==>
              && pass.Attempted?
              && |pass.attempts| == |Active()|
              && forall i :: 0 <= i < |Active()| ==>
                   pass.attempts[i] == Attempt(Active()[i].name, Active()[i].ip, finalize(Active()[i].ip, pubKey.value))
    {
      var inventory := Active();
      if |inventory| == 0 {
        return EmptyInventory;
      }
      if pubKey.None? {
        return KeyUnreadable;
      }
      var attempts: seq<Attempt> := [];
      var i := 0;
      while i < |inventory|
        invariant 0 <= i <= |inventory|
        invariant |attempts| == i
        invariant forall k :: 0 <= k < i ==>
                    attempts[k] == Attempt(inventory[k].name, inventory[k].ip, finalize(inventory[k].ip, pubKey.value))
      {
        var host := inventory[i];
        var resp := finalize(host.ip, pubKey.value);
        attempts := attempts + [Attempt(host.name, host.ip, resp)];
        i := i + 1;
      }
      pass := Attempted(attempts);
    }
  }
}
