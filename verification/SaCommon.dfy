/** What the analyses of both IKE versions share: payload queries and the two graded outcomes. */
module SaCommon {
  import opened IkeWire
  import opened Wrappers

  datatype Mode = UnknownMode | Tunnel | Transport
  datatype Pfs = UnknownPfs | Disabled | Enabled

  function FirstOfType(ps: seq<Payload>, ptype: byte): Option<Payload> {
    if ps == [] then None
    else if ps[0].ptype == ptype then Some(ps[0])
    else FirstOfType(ps[1..], ptype)
  }

  predicate HasType(ps: seq<Payload>, ptype: byte) {
    exists p :: p in ps && p.ptype == ptype
  }

  /** The first payload of a type, if there is one. */
  lemma {:induction false} FirstOfTypeMeans(ps: seq<Payload>, ptype: byte)
    ensures FirstOfType(ps, ptype).Some? <==> exists p :: p in ps && p.ptype == ptype
    ensures HasType(ps, ptype) <==> exists p :: p in ps && p.ptype == ptype
    ensures forall k :: 0 <= k < |ps| && ps[k].ptype == ptype && (forall j :: 0 <= j < k ==> ps[j].ptype != ptype) ==>
              FirstOfType(ps, ptype) == Some(ps[k])
  {
    if ps != [] && ps[0].ptype != ptype {
      var rest := ps[1..];
      FirstOfTypeMeans(rest, ptype);
      forall k | 0 <= k < |ps| && ps[k].ptype == ptype && (forall j :: 0 <= j < k ==> ps[j].ptype != ptype)
        ensures FirstOfType(ps, ptype) == Some(ps[k])
      {
        assert rest[k - 1] == ps[k];
        assert forall j :: 0 <= j < k - 1 ==> rest[j] == ps[j + 1];
      }
    }
  }
}
