/**
  Recency in a trace of LBAs, defined from the trace alone.  An LBA is among the last `n`
  distinct ones exactly when fewer than `n` distinct LBAs follow its last occurrence.
 */
module Recency {
  import opened Blocks

  function Members(t: seq<nat>): set<nat> {
    set l | l in t
  }

  /** The part of the trace after the last occurrence of `l`: all of it if there is none. */
  function After(t: seq<nat>, l: nat): seq<nat> {
    if t == [] then []
    else
      var front, last := t[..|t| - 1], t[|t| - 1];
      if last == l then [] else After(front, l) + [last]
  }

  /** The distinct LBAs requested since `l` last was: its reuse distance. */
  function Since(t: seq<nat>, l: nat): set<nat> {
    Members(After(t, l))
  }

  /** `l` is among the last `n` distinct LBAs of the trace. */
  predicate Recent(t: seq<nat>, n: nat, l: nat) {
    l in t && |Since(t, l)| < n
  }

  lemma SinceAppend(t: seq<nat>, x: nat, l: nat)
    ensures Since(t + [x], l) == if x == l then {} else Since(t, l) + {x}
  {
  }

  lemma {:induction false} SinceFacts(t: seq<nat>, l: nat)
    ensures l !in Since(t, l) && Since(t, l) <= Members(t)
    ensures l !in t ==> Since(t, l) == Members(t)
    decreases |t|
  {
    if t == [] {
    } else {
      var front, last := t[..|t| - 1], t[|t| - 1];
      assert t == front + [last];
      SinceAppend(front, last, l);
      SinceFacts(front, l);
    }
  }

  /** Whatever follows `m` follows every LBA that `m` follows. */
  lemma {:induction false} SinceNested(t: seq<nat>, l: nat, m: nat)
    requires m in Since(t, l)
    ensures Since(t, m) + {m} <= Since(t, l) && l !in Since(t, m) && |Since(t, m)| < |Since(t, l)|
    decreases |t|
  {
    var front, last := t[..|t| - 1], t[|t| - 1];
    assert t == front + [last];
    SinceAppend(front, last, l);
    SinceAppend(front, last, m);
    if m != last {
      SinceNested(front, l, m);
    }
    SinceFacts(t, m);
    SubsetSize(Since(t, m) + {m}, Since(t, l));
  }

  /** Of two requested LBAs one follows the other. */
  lemma {:induction false} SinceTotal(t: seq<nat>, l: nat, m: nat)
    requires l in t && m in t && l != m
    ensures m in Since(t, l) || l in Since(t, m)
    decreases |t|
  {
    var front, last := t[..|t| - 1], t[|t| - 1];
    assert t == front + [last];
    SinceAppend(front, last, l);
    SinceAppend(front, last, m);
    if last != l && last != m {
      SinceTotal(front, l, m);
    }
  }

  /** What came before an LBA's last occurrence is irrelevant. */
  lemma {:induction false} SinceConcat(a: seq<nat>, b: seq<nat>, l: nat)
    requires l in b
    ensures Since(a + b, l) == Since(b, l)
    decreases |b|
  {
    var front, last := b[..|b| - 1], b[|b| - 1];
    assert b == front + [last];
    assert a + b == (a + front) + [last];
    SinceAppend(a + front, last, l);
    SinceAppend(front, last, l);
    if last != l {
      SinceConcat(a, front, l);
    }
  }

  lemma RecentAppend(t: seq<nat>, n: nat, x: nat, l: nat)
    requires l != x
    ensures Recent(t + [x], n, l) <==> l in t && |Since(t, l) + {x}| < n
  {
    SinceAppend(t, x, l);
  }

  // ---------------------------------------------------------------- one more request

  /** `held` is the set of the last `n` distinct LBAs. */
  ghost predicate Holds(held: set<nat>, t: seq<nat>, n: nat) {
    forall l :: l in held <==> Recent(t, n, l)
  }

  lemma AllRecent(t: seq<nat>, n: nat)
    requires |Members(t)| <= n
    ensures Holds(Members(t), t, n)
  {
    forall l ensures l in Members(t) <==> Recent(t, n, l) {
      SinceFacts(t, l);
      if l in t {
        SubsetSize(Since(t, l) + {l}, Members(t));
      }
    }
  }

  /** Requesting a recent LBA again changes nothing about which LBAs are recent. */
  lemma HoldsAfterHit(held: set<nat>, t: seq<nat>, n: nat, x: nat)
    requires Holds(held, t, n) && x in held
    ensures Holds(held, t + [x], n)
  {
    forall l ensures l in held <==> Recent(t + [x], n, l) {
      if l == x {
        SinceAppend(t, x, l);
      } else {
        RecentAppend(t, n, x, l);
        SubsetSize(Since(t, l), Since(t, l) + {x});
        if l in held && x !in Since(t, l) {
          SinceTotal(t, l, x);
          SinceNested(t, x, l);
        } else if l in held {
          assert Since(t, l) + {x} == Since(t, l);
        }
      }
    }
  }

  /** While fewer than `n` LBAs are held, a new one joins them and displaces nobody. */
  lemma HoldsAfterMissWithRoom(held: set<nat>, t: seq<nat>, n: nat, x: nat)
    requires Holds(held, t, n) && x !in held && |held| < n
    ensures Holds(held + {x}, t + [x], n)
  {
    forall l ensures l in held + {x} <==> Recent(t + [x], n, l) {
      if l == x {
        SinceAppend(t, x, l);
      } else {
        RecentAppend(t, n, x, l);
        SubsetSize(Since(t, l), Since(t, l) + {x});
        if l in held {
          SinceFacts(t, l);
          forall m | m in Since(t, l) + {l} ensures m in held {
            if m != l {
              SinceNested(t, l, m);
            }
          }
          SubsetSize(Since(t, l) + {l}, held);
        }
      }
    }
  }

  /** When `n` LBAs are held, a new one displaces exactly the one that all others follow. */
  lemma HoldsAfterMissWhenFull(held: set<nat>, t: seq<nat>, n: nat, x: nat, v: nat)
    requires Holds(held, t, n) && x !in held && |held| == n
    requires v in held && forall l | l in held && l != v :: l in Since(t, v)
    ensures Holds(held - {v} + {x}, t + [x], n)
  {
    SinceFacts(t, v);
    SubsetSize(held - {v}, Since(t, v));
    assert Since(t, v) == held - {v};
    forall l ensures l in held - {v} + {x} <==> Recent(t + [x], n, l) {
      if l == x {
        SinceAppend(t, x, l);
      } else {
        RecentAppend(t, n, x, l);
        SubsetSize(Since(t, l), Since(t, l) + {x});
        if l in held && l != v {
          SinceNested(t, v, l);
        }
      }
    }
  }

  // ---------------------------------------------------------------- part of a trace

  /** The trace without the requests for LBAs in `d`. */
  function Without(t: seq<nat>, d: set<nat>): seq<nat> {
    if t == [] then []
    else Without(t[..|t| - 1], d) + if t[|t| - 1] in d then [] else [t[|t| - 1]]
  }

  lemma WithoutAppend(t: seq<nat>, x: nat, d: set<nat>)
    ensures Without(t + [x], d) == if x in d then Without(t, d) else Without(t, d) + [x]
  {
    assert (t + [x])[..|t|] == t;
    assert Without(t, d) + [] == Without(t, d);
  }

  lemma {:induction false} WithoutMembers(t: seq<nat>, d: set<nat>)
    ensures forall l :: l in Without(t, d) <==> l in t && l !in d
    ensures Members(Without(t, d)) == Members(t) - d
    decreases |t|
  {
    if t == [] {
    } else {
      var front, last := t[..|t| - 1], t[|t| - 1];
      WithoutMembers(front, d);
      assert forall l :: l in t <==> l in front || l == last by { assert t == front + [last]; }
      assert Without(t, d) == Without(front, d) + if last in d then [] else [last];
    }
  }

  lemma {:induction false} WithoutNone(t: seq<nat>, d: set<nat>)
    requires forall l | l in t :: l !in d
    ensures Without(t, d) == t
    decreases |t|
  {
    if t == [] {
    } else {
      WithoutNone(t[..|t| - 1], d);
      assert t == t[..|t| - 1] + [t[|t| - 1]];
    }
  }
}
