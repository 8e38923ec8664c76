/** Capability negotiation: which capability set the server confirms in
    answer to a client's Capabilities Advertise. */
module Negotiation {
  import opened MachineInts
  import opened EgfxPdu

  /** The set confirmed when no agreement is found: version 8.1 with AVC420
      (H.264) enabled. */
  function Fallback(): CapabilitySet
  {
    V8_1(AVC420_ENABLED)
  }

  /** The client advertised some capability set of the same version as `c`. */
  predicate Advertises(client: seq<CapabilitySet>, c: CapabilitySet)
  {
    exists k :: 0 <= k < |client| && SameVersion(client[k], c)
  }

  /** The negotiated capability set: the server's first preference when the
      client advertises its version, the fallback otherwise.  What this means
      for a caller is stated in the ensures and in the lemmas below. */
  function Negotiated(client: seq<CapabilitySet>, server: seq<CapabilitySet>): (r: CapabilitySet)
    ensures r == Fallback() || (|server| > 0 && r == server[0])
    ensures r == Fallback() || Advertises(client, r)
  {
    if |server| > 0 && Advertises(client, server[0]) then server[0] else Fallback()
  }

  /** The search the server runs: look through the client's sets for one
      whose version matches the server's first set, and return at the first
      match. */
  method NegotiateCapabilities(client: seq<CapabilitySet>, server: seq<CapabilitySet>) returns (cap: CapabilitySet)
    ensures cap == Negotiated(client, server)
  {
    if |server| > 0 {
      var first := server[0];
      for i := 0 to |client|
        invariant forall j :: 0 <= j < i ==> !SameVersion(client[j], first)
      {
        if SameVersion(client[i], first) {
          return first;
        }
      }
    }
    return Fallback();
  }

  /** When the client advertises the version of the server's first set, that
      set is confirmed unchanged, flags included. */
  lemma AgreementConfirmsServerChoice(client: seq<CapabilitySet>, server: seq<CapabilitySet>, k: nat)
    requires |server| > 0 && k < |client| && SameVersion(client[k], server[0])
    ensures Negotiated(client, server) == server[0]
  {
  }

  /** Without agreement on the server's first set, and in particular with an
      empty server list, the fallback is confirmed. */
  lemma DisagreementConfirmsFallback(client: seq<CapabilitySet>, server: seq<CapabilitySet>)
    requires |server| == 0 || forall k :: 0 <= k < |client| ==> !SameVersion(client[k], server[0])
    ensures Negotiated(client, server) == Fallback()
  {
  }

  /** Only the server's first set is looked at: the rest of its list never
      changes the outcome. */
  lemma OnlyFirstServerSetMatters(client: seq<CapabilitySet>, s: seq<CapabilitySet>, t: seq<CapabilitySet>)
    requires |s| > 0 && |t| > 0 && s[0] == t[0]
    ensures Negotiated(client, s) == Negotiated(client, t)
  {
  }

  /** The client list is read only for the versions it names: reordering it
      or repeating entries (anything with the same versions present) does
      not change the outcome. */
  lemma OnlyClientVersionsMatter(a: seq<CapabilitySet>, b: seq<CapabilitySet>, server: seq<CapabilitySet>)
    requires forall i :: 0 <= i < |a| ==> Advertises(b, a[i])
    requires forall j :: 0 <= j < |b| ==> Advertises(a, b[j])
    ensures Negotiated(a, server) == Negotiated(b, server)
  {
  }
}
