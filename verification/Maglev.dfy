/**
  The Maglev lookup table: every node visits the slots of a prime-sized table in an order
  of its own, and the nodes take turns claiming the first slot of theirs that is still free.
 */
module Maglev {
  import opened Arith
  import opened HashManager
  import opened Primes
  import opened Sorting

  // ---------- preference lists ----------

  function Preference(size: int, offset: int, skip: int): (pref: seq<int>)
    requires size > 0
    ensures |pref| == size
    ensures forall j :: 0 <= j < size ==> pref[j] == (offset + j * skip) % size
  {
    seq(size, j => (offset + j * skip) % size)
  }

  /** Every slot occurs in the list, at one position. */
  ghost predicate IsPermutation(pref: seq<int>, size: nat) {
    && |pref| == size
    && (forall j :: 0 <= j < size ==> 0 <= pref[j] < size)
    && (forall i, j :: 0 <= i < j < size ==> pref[i] != pref[j])
    && (forall c :: 0 <= c < size ==> c in pref)
  }

  /** Steps of a size below a prime never come back to a slot early. */
  lemma StepsDoNotRepeat(size: int, offset: int, skip: int, i: int, j: int)
    requires IsPrime(size) && 1 <= skip < size && 0 <= i < j < size
    ensures (offset + i * skip) % size != (offset + j * skip) % size
  {
    var x, y := offset + i * skip, offset + j * skip;
    if x % size == y % size {
      DivMod(x, size);
      DivMod(y, size);
      assert skip * (j - i) == size * (y / size - x / size) by {
        MulDistSub(j, i, skip);
        MulDistSub(y / size, x / size, size);
      }
      DivModUnique(skip * (j - i), size, y / size - x / size, 0);
      Euclid(size, skip, j - i);
      DivModUnique(j - i, size, 0, j - i);
      assert false;
    }
  }

  /** Distinct slots of a table that number as many as the table cover it. */
  lemma {:induction false} InjectiveCovers(pref: seq<int>, size: nat)
    requires |pref| == size && forall j :: 0 <= j < size ==> 0 <= pref[j] < size
    requires forall i, j :: 0 <= i < j < size ==> pref[i] != pref[j]
    ensures forall c :: 0 <= c < size ==> c in pref
  {
    var image := set j | 0 <= j < size :: pref[j];
    var slots := Slots(size);
    ImageSize(pref);
    assert image <= slots;
    if image != slots { SubsetSize(image, slots); }
    forall c | 0 <= c < size
      ensures c in pref
    {
      assert c in slots;
    }
  }

  lemma {:induction false} ImageSize(s: seq<int>)
    requires forall i, j :: 0 <= i < j < |s| ==> s[i] != s[j]
    ensures |set j | 0 <= j < |s| :: s[j]| == |s|
  {
    if s != [] {
      var n := |s| - 1;
      ImageSize(s[..n]);
      assert (set j | 0 <= j < |s| :: s[j]) == (set j | 0 <= j < n :: s[..n][j]) + {s[n]};
    }
  }

  ghost function Slots(size: nat): (slots: set<int>)
    ensures |slots| == size && forall c :: c in slots <==> 0 <= c < size
  {
    if size == 0 then {} else Slots(size - 1) + {size - 1}
  }

  lemma SubsetSize(a: set<int>, b: set<int>)
    requires a < b
    ensures |a| < |b|
  {
    assert b == a + (b - a);
  }

  /** The preference list of a node is a permutation because the table size is prime. */
  lemma PreferenceIsPermutation(size: int, offset: int, skip: int)
    requires IsPrime(size) && 1 <= skip < size
    ensures IsPermutation(Preference(size, offset, skip), size)
  {
    var pref := Preference(size, offset, skip);
    forall i, j | 0 <= i < j < size
      ensures pref[i] != pref[j]
    {
      StepsDoNotRepeat(size, offset, skip, i, j);
    }
    InjectiveCovers(pref, size);
  }

  // ---------- filling the table, the simple way ----------

  const FREE := -1

  ghost predicate IsOrder(prefs: seq<seq<int>>, size: nat) {
    && |prefs| > 0
    && forall i :: 0 <= i < |prefs| ==> IsPermutation(prefs[i], size)
  }

  ghost predicate IsTable(table: seq<int>, size: nat, nodes: nat) {
    && |table| == size
    && forall c :: 0 <= c < size ==> FREE <= table[c] < nodes
  }

  /** Scans a preference list from the start for the first free slot. */
  ghost function FirstFree(pref: seq<int>, table: seq<int>, from: nat): (j: nat)
    requires IsPermutation(pref, |table|)
    requires exists k :: from <= k < |pref| && table[pref[k]] == FREE
    ensures from <= j < |pref| && table[pref[j]] == FREE
    ensures forall k :: from <= k < j ==> table[pref[k]] != FREE
    decreases |pref| - from
  {
    if table[pref[from]] == FREE then from else FirstFree(pref, table, from + 1)
  }

  /** As long as a slot is free, every node finds one in its list. */
  lemma FreeSlotIsPreferred(pref: seq<int>, table: seq<int>)
    requires IsPermutation(pref, |table|) && FREE in table
    ensures exists k :: 0 <= k < |pref| && table[pref[k]] == FREE
  {
    var c :| 0 <= c < |table| && table[c] == FREE;
    assert c in pref;
    var k :| 0 <= k < |pref| && pref[k] == c;
  }

  /** Nodes take turns; each claims the first free slot of its list. */
  ghost function Fill(prefs: seq<seq<int>>, table: seq<int>, turn: nat): (full: seq<int>)
    requires IsOrder(prefs, |table|) && IsTable(table, |table|, |prefs|)
    ensures IsTable(full, |table|, |prefs|) && FREE !in full
    decreases multiset(table)[FREE]
  {
    if FREE !in table then table
    else
      var i := turn % |prefs|;
      FreeSlotIsPreferred(prefs[i], table);
      var c := prefs[i][FirstFree(prefs[i], table, 0)];
      Fill(prefs, table[c := i], turn + 1)
  }

  /**
    The full table tells who claimed which slot when: there is an order of the slots in which the slot
    claimed at turn n is the first one not claimed before in the list of the node whose turn it is.
   */
  lemma {:induction false} FillIsTurnTaking(prefs: seq<seq<int>>, table: seq<int>, claimed: seq<int>) returns (order: seq<int>)
    requires IsOrder(prefs, |table|) && IsTable(table, |table|, |prefs|) && |claimed| + multiset(table)[FREE] == |table|
    requires forall c :: 0 <= c < |table| ==> (table[c] == FREE <==> c !in claimed)
    ensures |order| == |table| && claimed <= order
    ensures InTurns(prefs, order, |claimed|, Fill(prefs, table, |claimed|))
    decreases multiset(table)[FREE]
  {
    hide ClaimedAt, IsOrder, IsTable, Fill, InTurns;
    if FREE !in table {
      EverythingIsClaimed(prefs, table, claimed);
      return claimed;
    }
    var n := |claimed|;
    var c := NextClaim(prefs, table, claimed);
    var next := table[c := n % |prefs|];
    FillKeeps(prefs, next, n + 1, c);
    order := FillIsTurnTaking(prefs, next, claimed + [c]);
    OneTurnMore(prefs, order, claimed, c, Fill(prefs, next, n + 1));
  }

  lemma {:induction false} EverythingIsClaimed(prefs: seq<seq<int>>, table: seq<int>, claimed: seq<int>)
    requires IsOrder(prefs, |table|) && IsTable(table, |table|, |prefs|) && |claimed| + multiset(table)[FREE] == |table|
    requires FREE !in table
    ensures |claimed| == |table| && InTurns(prefs, claimed, |claimed|, Fill(prefs, table, |claimed|))
  {
    assert multiset(table)[FREE] == 0;
  }

  lemma {:induction false} FillKeeps(prefs: seq<seq<int>>, table: seq<int>, turn: nat, c: nat)
    requires IsOrder(prefs, |table|) && IsTable(table, |table|, |prefs|) && c < |table| && table[c] != FREE
    ensures |Fill(prefs, table, turn)| == |table| && Fill(prefs, table, turn)[c] == table[c]
    decreases multiset(table)[FREE]
  {
    if FREE in table {
      var i := turn % |prefs|;
      FreeSlotIsPreferred(prefs[i], table);
      var next := table[prefs[i][FirstFree(prefs[i], table, 0)] := i];
      assert multiset(next)[FREE] == multiset(table)[FREE] - 1;
      FillKeeps(prefs, next, turn + 1, c);
    }
  }

  lemma OneTurnMore(prefs: seq<seq<int>>, order: seq<int>, claimed: seq<int>, c: int, full: seq<int>)
    requires InTurns(prefs, order, |claimed| + 1, full) && claimed + [c] <= order && ClaimedAt(prefs, claimed + [c], |claimed|)
    requires 0 <= c < |full| && full[c] == |claimed| % |prefs|
    ensures InTurns(prefs, order, |claimed|, full)
  {
    StillFirst(prefs, claimed + [c], order, |claimed|);
    assert order[|claimed|] == c;
    hide ClaimedAt;
  }

  /** From some turn on every slot is claimed as the order says, by the node whose turn it is. */
  ghost predicate InTurns(prefs: seq<seq<int>>, order: seq<int>, from: nat, full: seq<int>) {
    |prefs| > 0 && forall m :: from <= m < |order| ==>
      ClaimedAt(prefs, order, m) && 0 <= order[m] < |full| && full[order[m]] == m % |prefs|
  }

  /** One turn of the definition. */
  lemma {:induction false} NextClaim(prefs: seq<seq<int>>, table: seq<int>, claimed: seq<int>) returns (c: int)
    requires IsOrder(prefs, |table|) && IsTable(table, |table|, |prefs|) && |claimed| + multiset(table)[FREE] == |table|
    requires FREE in table && forall c :: 0 <= c < |table| ==> (table[c] == FREE <==> c !in claimed)
    ensures 0 <= c < |table| && table[c] == FREE && ClaimedAt(prefs, claimed + [c], |claimed|)
    ensures |prefs| > 0 && var next := table[c := |claimed| % |prefs|];
      && next[c] != FREE && next[c] == |claimed| % |prefs|
      && (forall k :: 0 <= k < |table| ==> (next[k] == FREE <==> k !in claimed + [c]))
      && IsTable(next, |table|, |prefs|) && multiset(next)[FREE] == multiset(table)[FREE] - 1
      && Fill(prefs, table, |claimed|) == Fill(prefs, next, |claimed| + 1)
  {
    var pref := prefs[|claimed| % |prefs|];
    FreeSlotIsPreferred(pref, table);
    var j := FirstFree(pref, table, 0);
    c := pref[j];
    assert (claimed + [c])[..|claimed|] == claimed;
    assert forall k :: 0 <= k < j ==> pref[k] in claimed;
  }

  lemma FirstInList(prefs: seq<seq<int>>, order: seq<int>, m: nat, list: seq<int>)
    requires ClaimedAt(prefs, order, m) && prefs[m % |prefs|] == list
    ensures order[m] !in order[..m]
    ensures exists j :: 0 <= j < |list| && list[j] == order[m] && forall k :: 0 <= k < j ==> list[k] in order[..m]
  {
  }

  lemma StillFirst(prefs: seq<seq<int>>, order: seq<int>, longer: seq<int>, n: nat)
    requires ClaimedAt(prefs, order, n) && order <= longer
    ensures ClaimedAt(prefs, longer, n)
  {
    assert longer[..n] == order[..n];
  }

  /** The n-th slot of the order is, in the list of its node, the first one that does not come earlier in the order. */
  ghost predicate ClaimedAt(prefs: seq<seq<int>>, order: seq<int>, n: nat) {
    && |prefs| > 0 && n < |order|
    && var pref := prefs[n % |prefs|];
      && order[n] !in order[..n]
      && exists j :: 0 <= j < |pref| && pref[j] == order[n] && forall k :: 0 <= k < j ==> pref[k] in order[..n]
  }

  // ---------- balance ----------

  /** How many of the first `turns` turns are node i's. */
  function Share(turns: nat, nodes: nat, i: nat): nat
    requires nodes > 0
  {
    turns / nodes + if i < turns % nodes then 1 else 0
  }

  lemma ShareStep(turns: nat, nodes: nat, i: nat)
    requires i < nodes
    ensures Share(turns + 1, nodes, i) == Share(turns, nodes, i) + if turns % nodes == i then 1 else 0
  {
    DivMod(turns, nodes);
    if turns % nodes == nodes - 1 {
      DivModUnique(turns + 1, nodes, turns / nodes + 1, 0);
    } else {
      DivModUnique(turns + 1, nodes, turns / nodes, turns % nodes + 1);
    }
  }

  lemma {:induction false} FillIsFair(prefs: seq<seq<int>>, table: seq<int>, turn: nat)
    requires IsOrder(prefs, |table|) && IsTable(table, |table|, |prefs|)
    requires multiset(table)[FREE] + turn == |table|
    requires forall i :: 0 <= i < |prefs| ==> multiset(table)[i] == Share(turn, |prefs|, i)
    ensures forall i :: 0 <= i < |prefs| ==> multiset(Fill(prefs, table, turn))[i] == Share(|table|, |prefs|, i)
    decreases multiset(table)[FREE]
  {
    if FREE in table {
      var i := turn % |prefs|;
      FreeSlotIsPreferred(prefs[i], table);
      var c := prefs[i][FirstFree(prefs[i], table, 0)];
      var next := table[c := i];
      forall k | 0 <= k < |prefs|
        ensures multiset(next)[k] == Share(turn + 1, |prefs|, k)
      {
        ShareStep(turn, |prefs|, k);
      }
      FillIsFair(prefs, next, turn + 1);
    } else {
      assert multiset(table)[FREE] == 0;
    }
  }

  function Empty(size: nat): (table: seq<int>)
    ensures |table| == size && forall c :: 0 <= c < size ==> table[c] == FREE
  {
    seq(size, _ => FREE)
  }

  lemma {:induction false} EmptyCounts(size: nat)
    ensures multiset(Empty(size))[FREE] == size
    ensures forall i :: i != FREE ==> multiset(Empty(size))[i] == 0
  {
    if size > 0 {
      EmptyCounts(size - 1);
      assert Empty(size) == Empty(size - 1) + [FREE];
    }
  }

  /** From an empty table: slot counts differ by at most one, the earlier nodes having the extra slot. */
  lemma FullTableIsBalanced(prefs: seq<seq<int>>, size: nat)
    requires IsOrder(prefs, size)
    ensures forall i :: 0 <= i < |prefs| ==>
      multiset(Fill(prefs, Empty(size), 0))[i] == Share(size, |prefs|, i)
  {
    EmptyCounts(size);
    forall i | 0 <= i < |prefs|
      ensures Share(0, |prefs|, i) == 0
    {
      DivModUnique(0, |prefs|, 0, 0);
    }
    FillIsFair(prefs, Empty(size), 0);
  }

  // ---------- table size ----------

  /** The size chosen for a wanted number of entries: a prime above it while there is one. */
  ghost predicate IsSize(wanted: int, size: int) {
    && IsPrime(size)
    && (if wanted < 997 then size > wanted else size == 997)
  }

  /** The least listed prime above the wanted number, or the last if there is none. */
  ghost predicate IsLeast(wanted: int, size: int) {
    Listed(size) && forall p :: Listed(p) && p > wanted ==> size <= p
  }

  ghost predicate Listed(p: int) {
    p in PRIMES
  }

  method TableSize(wanted: int) returns (size: int)
    ensures IsSize(wanted, size) && size in PRIMES
    ensures forall p :: p in PRIMES && p > wanted ==> size <= p
  {
    TableAscends();
    TableHoldsPrimes();
    size := PickSize(PRIMES, wanted);
  }

  method PickSize(table: seq<nat>, wanted: int) returns (size: int)
    requires Ascending(table) && |table| == 168 && table[167] == 997
    requires forall p :: p in table ==> IsPrime(p)
    ensures IsSize(wanted, size) && size in table
    ensures forall p :: p in table && p > wanted ==> size <= p
  {
    var pos := Bisect(table, wanted);
    size := table[if pos < |table| then pos else |table| - 1];
    if wanted < 997 {
      assert pos <= 167;
    } else {
      assert pos == 168;
    }
  }

  /** Every node gets its virtual entries exactly when all of them together number at most 997. */
  lemma EveryNodeGetsItsEntriesIff(nodes: nat, entries: int, size: int)
    requires nodes > 0 && IsSize(nodes * entries, size)
    ensures (forall i :: 0 <= i < nodes ==> Share(size, nodes, i) >= entries) <==> nodes * entries <= 997
  {
    QuotientReaches(size, nodes, entries);
    if nodes * entries > 997 {
      DivMod(size, nodes);
      assert Share(size, nodes, nodes - 1) < entries;
    }
  }

  lemma QuotientReaches(size: int, nodes: nat, entries: int)
    requires nodes > 0
    ensures size / nodes >= entries <==> size >= nodes * entries
  {
    DivMod(size, nodes);
    var q := size / nodes;
    if q >= entries {
      MulLe(entries, q, nodes);
    } else {
      MulLe(q + 1, entries, nodes);
      assert (q + 1) * nodes == nodes * q + nodes;
    }
  }

  // ---------- the table itself ----------

  datatype Lookup = NoNodes | Found(node: HashNode)

  class MaglevHash {
    const hash: string -> int
    const virtualEntryCount: int
    const manager: HashManager
    var lookupTable: seq<int>

    ghost predicate Valid()
      reads this, manager, manager.objects.Values
    {
      manager.Valid() && Populated() && Sized()
    }

    /** The table has the least listed size above the number of entries wanted. */
    ghost predicate Sized()
      reads this, manager
    {
      manager.nodes != [] ==> IsLeast(|manager.nodes| * virtualEntryCount, |lookupTable|)
    }

    /** The preference lists of the active nodes for a table of the given size. */
    ghost function Preferences(nodes: seq<HashNode>, size: int): (prefs: seq<seq<int>>)
      requires size >= 2
      ensures |prefs| == |nodes|
    {
      if nodes == [] then [] else Preferences(nodes[..|nodes| - 1], size) + [PreferenceOf(nodes[|nodes| - 1], size)]
    }

    function PreferenceOf(node: HashNode, size: int): seq<int>
      requires size >= 2
    {
      Preference(size, hash("cat" + node.key) % size, hash("lee" + node.key) % (size - 1) + 1)
    }

    lemma {:induction false} PreferencesAreOrder(nodes: seq<HashNode>, size: int)
      requires IsPrime(size)
      ensures forall i :: 0 <= i < |nodes| ==> IsPermutation(Preferences(nodes, size)[i], size)
    {
      if nodes != [] {
        var last := nodes[|nodes| - 1];
        PreferencesAreOrder(nodes[..|nodes| - 1], size);
        PreferenceIsPermutation(size, hash("cat" + last.key) % size, hash("lee" + last.key) % (size - 1) + 1);
      }
    }

    /** The table is what the active nodes get by taking turns in a table of the right size. */
    ghost predicate Populated()
      reads this, manager
    {
      var nodes := manager.nodes;
      if nodes == [] then lookupTable == []
      else
        && IsSize(|nodes| * virtualEntryCount, |lookupTable|)
        && IsOrder(Preferences(nodes, |lookupTable|), |lookupTable|)
        && lookupTable == Fill(Preferences(nodes, |lookupTable|), Empty(|lookupTable|), 0)
    }

    constructor (hash: string -> int, md5: string -> int, virtualEntryCount: int)
      ensures Valid() && fresh(manager) && manager.md5 == md5 && manager.objects == map[] && manager.nodes == []
      ensures this.hash == hash && this.virtualEntryCount == virtualEntryCount
    {
      this.hash := hash;
      this.virtualEntryCount := virtualEntryCount;
      manager := new HashManager(md5);
      lookupTable := [];
    }

    /**
      Builds the table with one running position per node instead of a scan from the start.
      No position ever leaves its list and the loops end, for any nodes, hash and entry count.
     */
    method Rehash()
      modifies this
      ensures Populated() && Sized()
      ensures manager.nodes != [] ==> |lookupTable| in PRIMES
      ensures manager.nodes != [] ==>
        forall p :: p in PRIMES && p > |manager.nodes| * virtualEntryCount ==> |lookupTable| <= p
    {
      lookupTable := [];
      if manager.nodes == [] {
        return;
      }
      var nodes := manager.nodes;
      var entryCount := TableSize(|nodes| * virtualEntryCount);
      var permutation: seq<seq<int>> := [];
      for i := 0 to |nodes|
        invariant nodes == manager.nodes && permutation == Preferences(nodes[..i], entryCount)
      {
        permutation := permutation + [PreferenceOf(nodes[i], entryCount)];
        assert nodes[..i + 1][..i] == nodes[..i];
      }
      assert nodes[..|nodes|] == nodes;
      PreferencesAreOrder(nodes, entryCount);
      lookupTable := Populate(permutation, entryCount);
    }

    /**
      What a populated table gives its nodes: only slots of active nodes, shares that differ by at
      most one, and the wanted number of entries for every node exactly when 997 slots suffice.
     */
    lemma PopulatedIsBalanced()
      requires manager.nodes != [] && Populated()
      ensures forall c :: 0 <= c < |lookupTable| ==> 0 <= lookupTable[c] < |manager.nodes|
      ensures forall i :: 0 <= i < |manager.nodes| ==>
        multiset(lookupTable)[i] == Share(|lookupTable|, |manager.nodes|, i)
      ensures (forall i :: 0 <= i < |manager.nodes| ==> multiset(lookupTable)[i] >= virtualEntryCount)
        <==> |manager.nodes| * virtualEntryCount <= 997
    {
      hide Fill, Preferences;
      ghost var nodes, size := |manager.nodes|, |lookupTable|;
      FullTableIsBalanced(Preferences(manager.nodes, size), size);
      EveryNodeGetsItsEntriesIff(nodes, virtualEntryCount, size);
      assert forall i :: 0 <= i < nodes ==> multiset(lookupTable)[i] == Share(size, nodes, i);
    }

    /** The share of one node, in numbers. */
    lemma ShareOfNode(i: nat)
      requires i < |manager.nodes| && Populated()
      ensures multiset(lookupTable)[i] == |lookupTable| / |manager.nodes| + if i < |lookupTable| % |manager.nodes| then 1 else 0
    {
      PopulatedIsBalanced();
    }

    /** There is an order in which the nodes have claimed the slots, taking turns. */
    lemma ClaimOrder() returns (order: seq<int>)
      requires manager.nodes != [] && Populated()
      ensures |order| == |lookupTable| > 1 && InTurns(Preferences(manager.nodes, |lookupTable|), order, 0, lookupTable)
    {
      hide Fill, ClaimedAt, InTurns;
      EmptyCounts(|lookupTable|);
      order := FillIsTurnTaking(Preferences(manager.nodes, |lookupTable|), Empty(|lookupTable|), []);
    }

    /**
      At each turn a node gets the first slot of its list that has not been claimed. The list starts at one
      hash of the key of the node and goes on in steps given by another.
     */
    lemma SlotOfTurn(order: seq<int>, m: nat, key: string, list: seq<int>)
      requires |lookupTable| > 1 && m < |order| == |lookupTable| && manager.nodes != []
      requires InTurns(Preferences(manager.nodes, |lookupTable|), order, 0, lookupTable)
      requires key == manager.nodes[m % |manager.nodes|].key
      requires var size := |lookupTable|;
        list == seq(size, j => (hash("cat" + key) % size + j * (hash("lee" + key) % (size - 1) + 1)) % size)
      ensures order[m] !in order[..m] && 0 <= order[m] < |lookupTable| && lookupTable[order[m]] == m % |manager.nodes|
      ensures exists j :: 0 <= j < |list| && list[j] == order[m] && forall k :: 0 <= k < j ==> list[k] in order[..m]
    {
      var size, i := |lookupTable|, m % |manager.nodes|;
      PreferenceAt(manager.nodes, size, i);
      ListOfKey(manager.nodes[i], size);
      hide ClaimedAt, Preferences, PreferenceOf;
      FirstInList(Preferences(manager.nodes, size), order, m, list);
    }

    lemma ListOfKey(node: HashNode, size: int)
      requires size >= 2
      ensures PreferenceOf(node, size)
        == seq(size, j => (hash("cat" + node.key) % size + j * (hash("lee" + node.key) % (size - 1) + 1)) % size)
    {
    }

    lemma {:induction false} PreferenceAt(nodes: seq<HashNode>, size: int, i: nat)
      requires size >= 2 && i < |nodes|
      ensures Preferences(nodes, size)[i] == PreferenceOf(nodes[i], size)
    {
      if i < |nodes| - 1 { PreferenceAt(nodes[..|nodes| - 1], size, i); }
    }

    /** A key is answered with the active node its slot holds; there is no answer only without nodes. */
    method GetNode(key: string) returns (r: Lookup)
      requires Valid()
      ensures r == NoNodes <==> manager.nodes == []
      ensures manager.nodes != [] ==>
        && 0 <= lookupTable[hash("cat" + key) % |lookupTable|] < |manager.nodes|
        && r == Found(manager.nodes[lookupTable[hash("cat" + key) % |lookupTable|]])
    {
      if manager.nodes == [] {
        return NoNodes;
      }
      PopulatedIsBalanced();
      var slot := hash("cat" + key) % |lookupTable|;
      r := Found(manager.nodes[lookupTable[slot]]);
    }

    method AddNode(node: HashNode)
      requires Valid() && node.hashedKey == manager.md5(node.key) && manager.NoCollision(node.key)
      modifies this, manager
      ensures Valid()
      ensures manager.objects == old(if node.key in manager.objects then manager.objects else manager.objects[node.key := node])
      ensures manager.nodes == old(if node.key !in manager.objects && node.enabled then manager.nodes + [node] else manager.nodes)
    {
      var rehash := manager.AddNode(node);
      if rehash { Rehash(); }
    }

    method RemoveNode(node: HashNode)
      requires Valid() && node.hashedKey == manager.md5(node.key) && manager.NoCollision(node.key)
      modifies this, manager
      ensures Valid() && manager.objects == old(manager.objects) - {node.key}
      ensures manager.nodes == old(if node.key in manager.objects then Without(manager.nodes, manager.objects[node.key]) else manager.nodes)
    {
      manager.RemoveNode(node);
      Rehash();
    }

    method EnableNode(key: string)
      requires Valid()
      modifies this, manager, if key in manager.objects then {manager.objects[key]} else {}
      ensures Valid() && manager.objects == old(manager.objects)
      ensures key in manager.objects ==> manager.objects[key].enabled
      ensures manager.nodes == old(manager.nodes)
        + if key in manager.objects && old(!manager.objects[key].enabled) then [manager.objects[key]] else []
    {
      var rehash := manager.EnableNode(key);
      if rehash { Rehash(); }
    }

    method DisableNode(key: string)
      requires Valid()
      modifies this, manager, if key in manager.objects then {manager.objects[key]} else {}
      ensures Valid() && manager.objects == old(manager.objects)
      ensures key in manager.objects ==> !manager.objects[key].enabled
      ensures manager.nodes == if key in manager.objects then Without(old(manager.nodes), manager.objects[key]) else old(manager.nodes)
    {
      var rehash := manager.DisableNode(key);
      if rehash { Rehash(); }
    }

    method Reset()
      modifies this, manager
      ensures Valid() && manager.objects == map[] && manager.nodes == []
    {
      manager.Reset();
      lookupTable := [];
    }

    method Apply(call: Call, ghost universe: set<HashNode>)
      requires Valid() && manager.Within(universe) && Universe(manager.md5, universe) && Meets(call, universe)
      modifies this, manager, universe
      ensures Valid() && manager.Within(universe)
      ensures manager.Holds(universe) == AfterCall(old(manager.Holds(universe)), call)
    {
      hide MaglevHash.Valid, HashManager.Valid, Universe, Without, HashManager.NoCollision;
      if call.Enable? || call.Disable? {
        Switch(call, universe);
      } else {
        Register(call, universe);
      }
    }

    method Register(call: Call, ghost universe: set<HashNode>)
      requires Valid() && manager.Within(universe) && Universe(manager.md5, universe) && Meets(call, universe)
      requires call.Add? || call.Remove? || call.Reset?
      modifies this, manager
      ensures Valid() && manager.Within(universe)
      ensures manager.Holds(universe) == AfterCall(old(manager.Holds(universe)), call)
    {
      if !call.Reset? { manager.KeysAreToldApart(call.node, universe); }
      hide MaglevHash.Valid, HashManager.Valid, Universe, Without, HashManager.NoCollision;
      if call.Add? {
        AddNode(call.node);
      } else if call.Remove? {
        RemoveNode(call.node);
      } else {
        Reset();
      }
    }

    method Switch(call: Call, ghost universe: set<HashNode>)
      requires Valid() && manager.Within(universe) && (call.Enable? || call.Disable?)
      modifies this, manager, universe
      ensures Valid() && manager.Within(universe)
      ensures manager.Holds(universe) == AfterCall(old(manager.Holds(universe)), call)
    {
      hide MaglevHash.Valid, HashManager.Valid, Universe, Without, HashManager.NoCollision;
      if call.Enable? {
        EnableNode(call.key);
      } else {
        DisableNode(call.key);
      }
    }

    /** Any sequence of calls keeps registry, active nodes and table in step. */
    method ApplyAll(calls: seq<Call>, ghost universe: set<HashNode>)
      requires Valid() && manager.Within(universe) && Universe(manager.md5, universe)
      requires forall i :: 0 <= i < |calls| ==> Meets(calls[i], universe)
      modifies this, manager, universe
      ensures Valid() && manager.Within(universe)
      ensures manager.Holds(universe) == AfterCalls(old(manager.Holds(universe)), calls)
    {
      ghost var start := manager.Holds(universe);
      assert calls[0..] == calls;
      for i := 0 to |calls|
        invariant Valid() && manager.Within(universe)
        invariant AfterCalls(manager.Holds(universe), calls[i..]) == AfterCalls(start, calls)
      {
        assert calls[i..][1..] == calls[i + 1..];
        Apply(calls[i], universe);
      }
    }
  }

  // ---------- filling the table, the fast way ----------

  /** n slots are taken, all slots before a running position are, and what remains to be done leads to `full`. */
  ghost predicate Filling(
    prefs: seq<seq<int>>, table: seq<int>, nexts: seq<int>, size: nat, n: nat, full: seq<int>)
  {
    && IsOrder(prefs, size) && IsTable(table, size, |prefs|) && |nexts| == |prefs|
    && multiset(table)[FREE] + n == size
    && (forall i :: 0 <= i < |prefs| ==> TakenBefore(prefs[i], table, nexts[i]))
    && Fill(prefs, table, n) == full
  }

  ghost predicate TakenBefore(pref: seq<int>, table: seq<int>, next: int)
    requires IsPermutation(pref, |table|)
  {
    0 <= next <= |pref| && forall k :: 0 <= k < next ==> table[pref[k]] != FREE
  }

  lemma FirstFreeIsUnique(pref: seq<int>, table: seq<int>, j: nat)
    requires IsPermutation(pref, |table|) && TakenBefore(pref, table, j)
    requires j < |pref| && table[pref[j]] == FREE
    ensures FirstFree(pref, table, 0) == j
  {
  }

  /** Claiming the slot found for the node whose turn it is. */
  lemma ClaimStep(prefs: seq<seq<int>>, table: seq<int>, nexts: seq<int>, size: nat, n: nat, full: seq<int>, j: nat)
    requires Filling(prefs, table, nexts, size, n, full) && n < size
    requires var i := n % |prefs|;
      TakenBefore(prefs[i], table, j) && j < size && table[prefs[i][j]] == FREE
    ensures var i := n % |prefs|;
      Filling(prefs, table[prefs[i][j] := i], nexts[i := j + 1], size, n + 1, full)
  {
    var i := n % |prefs|;
    FirstFreeIsUnique(prefs[i], table, j);
    var c := prefs[i][j];
    var claimed, moved := table[c := i], nexts[i := j + 1];
    assert FREE in table;
    assert multiset(claimed)[FREE] == multiset(table)[FREE] - 1;
    forall k | 0 <= k < |prefs|
      ensures TakenBefore(prefs[k], claimed, moved[k])
    {
      assert TakenBefore(prefs[k], table, nexts[k]);
    }
  }

  lemma FreeSlotsRemain(table: seq<int>, n: nat)
    requires multiset(table)[FREE] + n == |table| && n < |table|
    ensures FREE in table
  {
  }

  lemma FullTableStays(prefs: seq<seq<int>>, table: seq<int>, n: nat)
    requires IsOrder(prefs, |table|) && IsTable(table, |table|, |prefs|) && multiset(table)[FREE] == 0
    ensures Fill(prefs, table, n) == table
  {
  }

  /** Moves a running position on to the next free slot; it never runs off the list. */
  method Advance(pref: seq<int>, entries: seq<int>, start: nat) returns (next: nat)
    requires IsPermutation(pref, |entries|) && FREE in entries
    requires TakenBefore(pref, entries, start)
    ensures next < |pref| && entries[pref[next]] == FREE && TakenBefore(pref, entries, next)
  {
    FreeSlotIsPreferred(pref, entries);
    ghost var j := FirstFree(pref, entries, 0);
    next := start;
    var c := pref[next];
    while entries[c] != FREE
      invariant next <= j && c == pref[next] && TakenBefore(pref, entries, next)
      decreases j - next
    {
      next := next + 1;
      c := pref[next];
    }
  }

  /** One turn: the node whose turn it is claims the slot its position moves on to. */
  method Turn(
    permutation: seq<seq<int>>, entries: seq<int>, nexts: seq<int>, entryCount: nat, n: nat, idx: nat, ghost full: seq<int>)
    returns (entries': seq<int>, nexts': seq<int>)
    requires Filling(permutation, entries, nexts, entryCount, n, full)
    requires n < entryCount && idx < |permutation| && n % |permutation| == idx
    ensures Filling(permutation, entries', nexts', entryCount, n + 1, full)
  {
    FreeSlotsRemain(entries, n);
    var next := Advance(permutation[idx], entries, nexts[idx]);
    ClaimStep(permutation, entries, nexts, entryCount, n, full, next);
    entries' := entries[permutation[idx][next] := idx];
    nexts' := nexts[idx := next + 1];
  }

  lemma TurnOf(n: nat, first: nat, idx: nat, count: nat)
    requires idx <= count && count > 0 && first % count == 0 && n == first + idx
    ensures n % count == if idx < count then idx else 0
  {
    DivMod(first, count);
    if idx < count {
      DivModUnique(n, count, first / count, idx);
    } else {
      DivModUnique(n, count, first / count + 1, 0);
    }
  }

  lemma StartFilling(prefs: seq<seq<int>>, size: nat, nexts: seq<int>)
    requires IsOrder(prefs, size) && nexts == seq(|prefs|, _ => 0)
    ensures Filling(prefs, Empty(size), nexts, size, 0, Fill(prefs, Empty(size), 0))
  {
    EmptyCounts(size);
  }

  lemma DoneFilling(prefs: seq<seq<int>>, table: seq<int>, nexts: seq<int>, size: nat, full: seq<int>)
    requires Filling(prefs, table, nexts, size, size, full)
    ensures table == full
  {
    FullTableStays(prefs, table, size);
  }

  /** The nested loops of `rehash`, from the first turn to the full table. */
  method Populate(permutation: seq<seq<int>>, entryCount: nat) returns (entries: seq<int>)
    requires IsOrder(permutation, entryCount) && entryCount > 0
    ensures entries == Fill(permutation, Empty(entryCount), 0)
  {
    var count := |permutation|;
    var nexts := seq(count, _ => 0);
    entries := Empty(entryCount);
    ghost var full := Fill(permutation, entries, 0);
    StartFilling(permutation, entryCount, nexts);
    var n := 0;
    while true
      invariant Filling(permutation, entries, nexts, entryCount, n, full)
      invariant n < entryCount && n % count == 0
      decreases entryCount - n
    {
      ghost var first := n;
      for idx := 0 to count
        invariant Filling(permutation, entries, nexts, entryCount, n, full)
        invariant n == first + idx && n < entryCount
      {
        TurnOf(n, first, idx, count);
        entries, nexts := Turn(permutation, entries, nexts, entryCount, n, idx, full);
        n := n + 1;
        if n == entryCount {
          DoneFilling(permutation, entries, nexts, entryCount, full);
          return;
        }
      }
      TurnOf(n, first, count, count);
    }
  }
}
