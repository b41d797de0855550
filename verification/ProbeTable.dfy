/** The linear-probing scheme that the connection table and the timeline table share. */
module ProbeTable {
  import opened Bits
  import opened Events
  import opened Wrappers

  const SIZE := 1024

  /** The key held by each slot; a free slot holds none. */
  type Keys = ks: seq<Option<U64>> | |ks| == SIZE witness seq(SIZE, _ => None)

  function HashSocket(socket: U64): (home: nat)
    ensures home < SIZE
  {
    Xor(socket, socket / 0x1_0000_0000) % SIZE
  }

  /** Bit by bit, the home is the low end of both halves of the pointer, one upon the other. */
  lemma HomeBits(socket: U64, k: nat)
    requires k < 10
    ensures Bit(HashSocket(socket), k) == if Bit(socket, k) == Bit(socket, 32 + k) then 0 else 1
  {
    var high := socket / 0x1_0000_0000;
    assert Power(10) == 1024;
    HalvedWord(socket);
    LowBits(Xor(socket, high), 10, k);
    XorBits(socket, high, k);
    BitBehind(socket, 32, k);
  }

  /** The slot reached from `home` after `d` steps of `idx = (idx + 1) % SIZE`. */
  function Probe(home: nat, d: nat): nat {
    if home + d < SIZE then home + d else home + d - SIZE
  }

  function Distance(home: nat, i: nat): nat
    requires home < SIZE && i < SIZE
  {
    if home <= i then i - home else i + SIZE - home
  }

  ghost predicate Unique(ks: Keys) {
    forall i, j | 0 <= i < SIZE && 0 <= j < SIZE && ks[i].Some? && ks[i] == ks[j] :: i == j
  }

  /** No free slot lies cyclically between a key's hash home and the slot that holds it. */
  ghost predicate NoGap(ks: Keys) {
    forall i, d | 0 <= i < SIZE && ks[i].Some? && 0 <= d < Distance(HashSocket(ks[i].value), i) ::
      ks[Probe(HashSocket(ks[i].value), d)].Some?
  }

  ghost predicate WellFormed(ks: Keys) {
    Unique(ks) && NoGap(ks)
  }

  /** Of the keys asking for a slot, in order, those that a table without deletion takes in. */
  function Admitted(sockets: seq<U64>): seq<U64> {
    sockets[..if |sockets| < SIZE then |sockets| else SIZE]
  }

  ghost function AdmittedSet(sockets: seq<U64>): set<U64> {
    set s | s in Admitted(sockets)
  }

  /** A key that asks for the first time is taken in exactly while fewer than 1024 are. */
  lemma AdmittedAfter(before: seq<U64>, s: U64)
    requires |AdmittedSet(before)| == |Admitted(before)|
    ensures var after := if s in before then before else before + [s];
      && AdmittedSet(after) ==
        (if |AdmittedSet(before)| < 1024 then AdmittedSet(before) + {s} else AdmittedSet(before))
      && |AdmittedSet(after)| == |Admitted(after)|
  {
    if s in before {
      if |before| < SIZE {
        assert AdmittedSet(before) + {s} == AdmittedSet(before);
      }
    } else if |before| < SIZE {
      assert Admitted(before + [s]) == before + [s];
      assert AdmittedSet(before + [s]) == AdmittedSet(before) + {s};
    } else {
      assert Admitted(before + [s]) == Admitted(before);
    }
  }

  /** The keys held by the first `n` slots. */
  ghost function HeldBelow(ks: Keys, n: nat): set<U64>
    requires n <= SIZE
  {
    set i | 0 <= i < n && ks[i].Some? :: ks[i].value
  }

  ghost function Held(ks: Keys): set<U64> {
    HeldBelow(ks, SIZE)
  }

  /** A probe that, unlike the C code, gives up at the first free slot. */
  function EarlyStoppingProbe(ks: Keys, key: U64, d: nat): Option<nat>
    requires d <= SIZE
    decreases SIZE - d
  {
    if d == SIZE then None
    else
      var i := Probe(HashSocket(key), d);
      if ks[i].None? then None
      else if ks[i].value == key then Some(i)
      else EarlyStoppingProbe(ks, key, d + 1)
  }

  /** The full-ring scan and the early-stopping probe agree with the set of held keys. */
  lemma EarlyStoppingIsEnough(ks: Keys, key: U64)
    requires WellFormed(ks)
    ensures EarlyStoppingProbe(ks, key, 0).Some? <==> key in Held(ks)
    ensures key in Held(ks) ==>
      var i := EarlyStoppingProbe(ks, key, 0).value; i < SIZE && ks[i] == Some(key)
  {
    EarlyStoppingFrom(ks, key, 0);
    if key in Held(ks) {
      var i :| 0 <= i < SIZE && ks[i] == Some(key);
      EarlyStoppingReaches(ks, key, i, 0);
    }
  }

  lemma {:induction false} EarlyStoppingFrom(ks: Keys, key: U64, d: nat)
    requires d <= SIZE
    ensures var r := EarlyStoppingProbe(ks, key, d); r.Some? ==> r.value < SIZE && ks[r.value] == Some(key)
    decreases SIZE - d
  {
    if d < SIZE {
      EarlyStoppingFrom(ks, key, d + 1);
    }
  }

  lemma {:induction false} EarlyStoppingReaches(ks: Keys, key: U64, i: nat, d: nat)
    requires WellFormed(ks)
    requires i < SIZE && ks[i] == Some(key) && d <= Distance(HashSocket(key), i)
    ensures EarlyStoppingProbe(ks, key, d) == Some(i)
    decreases SIZE - d
  {
    var home := HashSocket(key);
    assert Probe(home, Distance(home, i)) == i;
    if d < Distance(home, i) {
      assert ks[Probe(home, d)].Some?;
      EarlyStoppingReaches(ks, key, i, d + 1);
    }
  }

  ghost predicate FirstFreeAt(ks: Keys, key: U64, d: nat) {
    && d < SIZE && ks[Probe(HashSocket(key), d)].None?
    && forall c | 0 <= c < d :: ks[Probe(HashSocket(key), c)].Some?
  }

  /** `slot` is the first free slot that a scan for `key` meets. */
  ghost predicate FirstFree(ks: Keys, key: U64, slot: nat) {
    exists d :: FirstFreeAt(ks, key, d) && slot == Probe(HashSocket(key), d)
  }

  /** Taking the first free slot in probe order keeps the table well formed. */
  lemma ClaimKeepsWellFormed(ks: Keys, key: U64, slot: nat)
    requires WellFormed(ks) && key !in Held(ks) && FirstFree(ks, key, slot)
    ensures slot < SIZE && ks[slot].None?
    ensures WellFormed(ks[slot := Some(key)])
    ensures Held(ks[slot := Some(key)]) == Held(ks) + {key}
  {
    var home := HashSocket(key);
    var d :| FirstFreeAt(ks, key, d) && slot == Probe(home, d);
    var after: Keys := ks[slot := Some(key)];
    assert Distance(home, slot) == d;
    forall i | 0 <= i < SIZE && after[i].Some? ensures after[i].value in Held(ks) + {key} {
      if i != slot { assert after[i] == ks[i]; }
    }
    forall k | k in Held(ks) + {key} ensures k in Held(after) {
      if k == key {
        assert after[slot].value == key;
      } else {
        var i :| 0 <= i < SIZE && ks[i] == Some(k);
        assert after[i] == Some(k);
      }
    }
  }

  ghost predicate NoneFreeBelow(ks: Keys, n: nat)
    requires n <= SIZE
  {
    forall i | 0 <= i < n :: ks[i].Some?
  }

  /** Pigeonhole: 1024 distinct keys are held exactly when no slot is free. */
  lemma FullExactlyAtCapacity(ks: Keys)
    requires Unique(ks)
    ensures |Held(ks)| <= SIZE
    ensures |Held(ks)| == SIZE <==> forall i | 0 <= i < SIZE :: ks[i].Some?
  {
    HeldBelowCount(ks, SIZE);
    assert NoneFreeBelow(ks, SIZE) <==> forall i | 0 <= i < SIZE :: ks[i].Some?;
  }

  lemma HeldBelowNext(ks: Keys, n: nat)
    requires n < SIZE && Unique(ks)
    ensures |HeldBelow(ks, n + 1)| == |HeldBelow(ks, n)| + (if ks[n].Some? then 1 else 0)
    ensures NoneFreeBelow(ks, n + 1) <==> NoneFreeBelow(ks, n) && ks[n].Some?
  {
    var before, after := HeldBelow(ks, n), HeldBelow(ks, n + 1);
    if ks[n].Some? {
      assert ks[n].value !in before;
      assert after == before + {ks[n].value};
    } else {
      assert after == before;
    }
  }

  lemma {:induction false} HeldBelowCount(ks: Keys, n: nat)
    requires n <= SIZE && Unique(ks)
    ensures |HeldBelow(ks, n)| <= n
    ensures |HeldBelow(ks, n)| == n <==> NoneFreeBelow(ks, n)
  {
    if n == 0 {
      assert HeldBelow(ks, 0) == {};
    } else {
      HeldBelowCount(ks, n - 1);
      HeldBelowNext(ks, n - 1);
    }
  }
}
