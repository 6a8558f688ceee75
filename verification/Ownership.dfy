/** Who owns which object: the members of a list own disjoint parts of what the holder of the
    list owns.  This is about sets of objects only, never about their fields. */
module Ownership {
  import opened LinkedList

  /** `core` is the list itself; `owners[i]` owns `parts[i]`; `whole` has room for all. */
  ghost predicate Apart(core: set<object>, owners: seq<object>, parts: seq<set<object>>, whole: set<object>) {
    && |owners| == |parts| && core <= whole
    && (forall i :: 0 <= i < |parts| ==> owners[i] in parts[i] && parts[i] <= whole && parts[i] !! core)
    && forall i, j :: 0 <= i < j < |parts| ==> parts[i] !! parts[j]
  }

  /** What member `j` owns is neither the list's nor another member's. */
  lemma ApartAt(core: set<object>, owners: seq<object>, parts: seq<set<object>>, whole: set<object>, j: nat)
    requires Apart(core, owners, parts, whole) && j < |parts|
    ensures owners[j] in parts[j] && parts[j] <= whole && parts[j] !! core
    ensures forall i :: 0 <= i < |parts| && i != j ==> parts[i] !! parts[j]
    ensures forall i :: 0 <= i < |parts| && i != j ==> owners[i] !in parts[j]
  {
  }

  /** One member comes to own new objects. */
  lemma ApartGrow(core: set<object>, owners: seq<object>, parts: seq<set<object>>, whole: set<object>, j: nat, part: set<object>)
    requires Apart(core, owners, parts, whole) && j < |parts|
    requires owners[j] in part && part - parts[j] !! whole
    ensures Apart(core, owners, parts[j := part], whole + part)
  {
    ApartAt(core, owners, parts, whole, j);
    forall o | o in part ensures o !in core && forall i :: 0 <= i < |parts| && i != j ==> o !in parts[i] {
      if o !in parts[j] {
        assert o !in whole;
      }
    }
  }

  /** A new member joins, and the list may grow too. */
  lemma ApartAdd(core: set<object>, owners: seq<object>, parts: seq<set<object>>, whole: set<object>,
                 core': set<object>, owner: object, part: set<object>)
    requires Apart(core, owners, parts, whole)
    requires owner in part && part !! whole && core' - core !! whole && core' !! part
    ensures Apart(core', owners + [owner], parts + [part], whole + core' + part)
  {
  }

  /** A member leaves; what it owned is left over. */
  lemma ApartDrop(core: set<object>, owners: seq<object>, parts: seq<set<object>>, whole: set<object>,
                  j: nat, owners': seq<object>)
    requires Apart(core, owners, parts, whole) && j < |parts| && |owners'| == |owners| - 1
    requires forall i :: 0 <= i < |owners'| ==> owners'[i] == owners[if i < j then i else i + 1]
    ensures Apart(core, owners', Without(parts, j), whole)
  {
  }

  /** No member occurs twice. */
  lemma ApartOnce(core: set<object>, owners: seq<object>, parts: seq<set<object>>, whole: set<object>, j: nat)
    requires Apart(core, owners, parts, whole) && j < |parts|
    ensures forall i :: 0 <= i < |parts| && i != j ==> owners[i] != owners[j]
  {
    ApartAt(core, owners, parts, whole, j);
  }
}
