/** Namespacing of action names: a service-local name `k` of service `s`
    becomes `s.k`, and a reference that already contains a dot is taken to
    name an action of another service and is left alone. */
module Names {

  /** The separator between a service name and a service-local name. */
  const Dot: char := '.'

  predicate HasDot(s: string) {
    Dot in s
  }

  /** The catalog key of local action `key` of `service`; applied to every
      key, whether or not it would need qualifying. */
  function Prefixed(service: string, key: string): string {
    service + [Dot] + key
  }

  /** Qualifies a reference to an action: bare names are taken to belong to
      `service`, dotted names are kept as they are. */
  function Qualify(service: string, name: string): (r: string)
    ensures HasDot(r)
    ensures HasDot(name) ==> r == name
    ensures !HasDot(name) ==> r == Prefixed(service, name)
    ensures |name| <= |r| && r[|r| - |name|..] == name
  {
    if HasDot(name) then name else Prefixed(service, name)
  }

  /** Qualifies every reference of a list, keeping its length and order. */
  function QualifyAll(service: string, names: seq<string>): (r: seq<string>)
    ensures |r| == |names|
    ensures forall i :: 0 <= i < |names| ==> r[i] == Qualify(service, names[i])
  {
    if names == [] then [] else [Qualify(service, names[0])] + QualifyAll(service, names[1..])
  }

  /** Qualifying a qualified reference changes nothing. */
  lemma QualifyIdempotent(service: string, name: string)
    ensures Qualify(service, Qualify(service, name)) == Qualify(service, name)
  {
  }

  lemma QualifyAllIdempotent(service: string, names: seq<string>)
    ensures QualifyAll(service, QualifyAll(service, names)) == QualifyAll(service, names)
    ensures forall i :: 0 <= i < |names| ==> HasDot(QualifyAll(service, names)[i])
  {
    // follows entry by entry from QualifyAll's and Qualify's postconditions
  }

  /** A catalog key determines both the service and the local name, because
      local names carry no dot: keys of two services never collide. */
  lemma PrefixedInjective(s1: string, k1: string, s2: string, k2: string)
    requires !HasDot(k1) && !HasDot(k2)
    requires Prefixed(s1, k1) == Prefixed(s2, k2)
    ensures s1 == s2 && k1 == k2
  {
    var x := Prefixed(s1, k1);
    // the last dot of a key sits right before the local name
    assert x[|x| - |k1| - 1] == Dot && x[|x| - |k2| - 1] == Dot;
    assert forall j :: |x| - |k1| <= j < |x| ==> x[j] == k1[j - |s1| - 1];
    assert forall j :: |x| - |k2| <= j < |x| ==> x[j] == k2[j - |s2| - 1];
    assert |k1| == |k2|;
    assert k1 == x[|x| - |k1|..] == k2;
    assert s1 == x[..|s1|] == s2;
  }

  /** Within one service, distinct local names give distinct keys, dotted or not. */
  lemma PrefixedInjectiveKey(service: string, k1: string, k2: string)
    requires Prefixed(service, k1) == Prefixed(service, k2)
    ensures k1 == k2
  {
    var x := Prefixed(service, k1);
    assert k1 == x[|service| + 1..];
    assert k2 == Prefixed(service, k2)[|service| + 1..];
  }
}
