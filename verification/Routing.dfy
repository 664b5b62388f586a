/** Which location of a server serves an address. */
module Routing {
  import opened Wrappers
  import opened Config

  /** A directory address gets its final slash. */
  function Normalised(address: string): string {
    if '.' !in address && (address == "" || address[|address| - 1] != '/') then address + "/" else address
  }

  /** What sortLocations leaves, in whatever order std::sort puts references of equal length. */
  predicate SortedBySize(locations: seq<Location>) {
    forall i, j :: 0 <= i < j < |locations| ==> |locations[i].ref| >= |locations[j].ref|
  }

  predicate IsSortOf(sorted: seq<Location>, locations: seq<Location>) {
    multiset(sorted) == multiset(locations) && SortedBySize(sorted)
  }

  predicate Matches(l: Location, path: string) {
    l.ref <= path
  }

  /** The address itself begins with the reference, or it is the reference but for the slash of a directory. */
  predicate Serves(l: Location, address: string) {
    || (|l.ref| <= |address| && l.ref == address[..|l.ref|])
    || (l.ref == address + "/" && '.' !in address && (address == "" || address[|address| - 1] != '/'))
  }

  lemma ServesIff(l: Location, address: string)
    ensures Matches(l, Normalised(address)) <==> Serves(l, address)
  {
    var path := Normalised(address);
    if l.ref <= path && |l.ref| > |address| {
      assert l.ref == path[..|l.ref|] == address + "/";
    }
  }

  /** The loop of _resolvePathAndLocationBlock up to the match: the first location that serves the address. */
  method MatchLocation(locations: seq<Location>, address: string) returns (found: Option<nat>, path: string)
    ensures found.Some? ==>
              && found.value < |locations| && Serves(locations[found.value], address)
              && (forall j :: 0 <= j < found.value ==> !Serves(locations[j], address))
              && var l := locations[found.value];
                 path == l.root + (if |address| > |l.ref| then address[|l.ref|..] else "")
    ensures found.None? ==> forall j :: 0 <= j < |locations| ==> !Serves(locations[j], address)
  {
    hide Serves;
    var resolvePath := Normalised(address);
    for i := 0 to |locations|
      invariant forall j :: 0 <= j < i ==> !Serves(locations[j], address)
    {
      var l := locations[i];
      ServesIff(l, address);
      if |l.ref| <= |resolvePath| && l.ref == resolvePath[..|l.ref|] {
        path := if |address| > |l.ref| then l.root + address[|l.ref|..] else l.root + "";
        return Some(i), path;
      }
    }
    return None, "";
  }

  /** The choice, by addresses: on a sorted list the first that serves is at least as long as any other that does. */
  lemma ServesLongest(sorted: seq<Location>, locations: seq<Location>, address: string, k: nat)
    requires IsSortOf(sorted, locations) && k < |sorted| && Serves(sorted[k], address)
    requires forall j :: 0 <= j < k ==> !Serves(sorted[j], address)
    ensures sorted[k] in locations
    ensures forall l :: l in locations && Serves(l, address) ==> |l.ref| <= |sorted[k].ref|
  {
    forall l: Location ensures Matches(l, Normalised(address)) <==> Serves(l, address) {
      ServesIff(l, address);
    }
    hide Serves, Matches;
    FirstMatchIsLongest(sorted, locations, Normalised(address), k);
  }

  predicate FirstMatch(locations: seq<Location>, path: string, k: nat) {
    k < |locations| && Matches(locations[k], path) && forall j :: 0 <= j < k ==> !Matches(locations[j], path)
  }

  lemma MemberOf(sorted: seq<Location>, locations: seq<Location>, l: Location)
    requires multiset(sorted) == multiset(locations)
    ensures l in sorted <==> l in locations
  {
    assert l in multiset(sorted) <==> l in multiset(locations);
  }

  /** Longest prefix: the first match of a sorted list has a reference at least as long as every other that matches. */
  lemma FirstMatchIsLongest(sorted: seq<Location>, locations: seq<Location>, path: string, k: nat)
    requires IsSortOf(sorted, locations) && FirstMatch(sorted, path, k)
    ensures sorted[k] in locations
    ensures forall l :: l in locations && Matches(l, path) ==> |l.ref| <= |sorted[k].ref|
  {
    MemberOf(sorted, locations, sorted[k]);
    forall l | l in locations && Matches(l, path) ensures |l.ref| <= |sorted[k].ref| {
      MemberOf(sorted, locations, l);
      var j :| 0 <= j < |sorted| && sorted[j] == l;
      assert j >= k;
    }
  }

  /** The chosen reference does not depend on the order of references of equal length. */
  lemma ChoiceIsUnique(one: seq<Location>, two: seq<Location>, locations: seq<Location>, path: string, k: nat, m: nat)
    requires IsSortOf(one, locations) && IsSortOf(two, locations)
    requires FirstMatch(one, path, k) && FirstMatch(two, path, m)
    ensures one[k].ref == two[m].ref
  {
    FirstMatchIsLongest(one, locations, path, k);
    FirstMatchIsLongest(two, locations, path, m);
    assert one[k].ref == path[..|one[k].ref|] && two[m].ref == path[..|two[m].ref|];
  }

  /** No match is reported exactly when no reference is a prefix. */
  lemma NoMatchIffNoPrefix(sorted: seq<Location>, locations: seq<Location>, path: string)
    requires IsSortOf(sorted, locations)
    ensures (exists k: nat :: FirstMatch(sorted, path, k)) <==> (exists l :: l in locations && Matches(l, path))
  {
    if k: nat :| FirstMatch(sorted, path, k) {
      MemberOf(sorted, locations, sorted[k]);
    }
    if l :| l in locations && Matches(l, path) {
      MemberOf(sorted, locations, l);
      var j :| 0 <= j < |sorted| && sorted[j] == l;
      var k := LeastMatch(sorted, path, j);
      assert FirstMatch(sorted, path, k);
    }
  }

  lemma {:induction false} LeastMatch(sorted: seq<Location>, path: string, j: nat) returns (k: nat)
    requires j < |sorted| && Matches(sorted[j], path)
    ensures FirstMatch(sorted, path, k)
    decreases j
  {
    k := j;
    if i :| 0 <= i < j && Matches(sorted[i], path) {
      k := LeastMatch(sorted, path, i);
    }
  }
}
