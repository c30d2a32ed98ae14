/** The client-side picker: produce calls go to the leader, consume calls round
    the followers. */
module Pickers {
  import opened Bytes

  type Conn = nat

  /** strings.Contains. */
  predicate Contains(s: string, t: string) {
    if |s| < |t| then false else s[..|t|] == t || Contains(s[1..], t)
  }

  ghost predicate OccursAt(s: string, t: string, i: nat) {
    i + |t| <= |s| && s[i..i + |t|] == t
  }

  lemma {:induction false} ContainsMeans(s: string, t: string)
    requires t != []
    ensures Contains(s, t) <==> exists i :: OccursAt(s, t, i)
  {
    if |s| >= |t| {
      assert s[0..0 + |t|] == s[..|t|];
      assert s[..|t|] == t ==> OccursAt(s, t, 0);
      ContainsMeans(s[1..], t);
      forall i: nat
        ensures OccursAt(s[1..], t, i) <==> OccursAt(s, t, i + 1)
      {
        if i + |t| <= |s| - 1 {
          assert s[1..][i..i + |t|] == s[i + 1..i + 1 + |t|];
        }
      }
      if i: nat :| OccursAt(s, t, i) && i > 0 {
        assert OccursAt(s[1..], t, i - 1);
      }
    }
  }

  ghost predicate Distinct(s: seq<Conn>) {
    forall i, j | 0 <= i < j < |s| :: s[i] != s[j]
  }

  function Advance(current: Uint64): Uint64 {
    (current + 1) % TWO_64
  }

  class Picker {
    var leader: Option<Conn>
    var followers: seq<Conn>
    var current: Uint64

    constructor ()
      ensures leader == None && followers == [] && current == 0
    {
      leader, followers, current := None, [], 0;
    }

    /** Install the ready connections, each with its leader mark, in whatever order
        they come. Without a leader among them the old one stays; the round-robin
        counter goes on from where it is. */
    method Build(ready: map<Conn, bool>)
      modifies this
      ensures Distinct(followers) && forall c :: c in followers <==> c in ready && !ready[c]
      ensures (exists c :: c in ready && ready[c]) ==> leader.Some? && leader.value in ready && ready[leader.value]
      ensures (forall c :: c in ready ==> !ready[c]) ==> leader == old(leader)
      ensures current == old(current)
    {
      var list: seq<Conn>, rest := [], ready.Keys;
      while rest != {}
        invariant rest <= ready.Keys && current == old(current)
        invariant Distinct(list) && forall c :: c in list <==> c in ready && c !in rest && !ready[c]
        invariant if exists c :: c in ready && c !in rest && ready[c]
                  then leader.Some? && leader.value in ready && ready[leader.value]
                  else leader == old(leader)
        decreases rest
      {
        var c :| c in rest;
        rest := rest - {c};
        if ready[c] {
          leader := Some(c);
        } else {
          list := list + [c];
        }
      }
      followers := list;
    }

    /** The connection for a call, or none when there is none to give. */
    method Pick(fullMethod: string) returns (conn: Option<Conn>)
      modifies `current
      ensures Contains(fullMethod, "Produce") || followers == [] ==> conn == leader && current == old(current)
      ensures !Contains(fullMethod, "Produce") && followers != [] ==>
                if Contains(fullMethod, "Consume")
                then
                  current == (old(current) + 1) % 0x1_0000_0000_0000_0000 &&
                  conn == Some(followers[current % |followers|])
                else conn == None && current == old(current)
    {
      if Contains(fullMethod, "Produce") || |followers| == 0 {
        return leader;
      } else if Contains(fullMethod, "Consume") {
        var next := NextFollower();
        return Some(next);
      }
      return None;
    }

    method NextFollower() returns (conn: Conn)
      requires followers != []
      modifies `current
      ensures current == (old(current) + 1) % 0x1_0000_0000_0000_0000 && conn == followers[current % |followers|]
    {
      current := (current + 1) % TWO_64;
      conn := followers[current % |followers|];
    }
  }

  // ----------------------------------------------------------------- fairness

  function FollowerAt(followers: seq<Conn>, counter: Uint64): Conn
    requires followers != []
  {
    followers[counter % |followers|]
  }

  /** The connections `n` consume calls in a row get, the counter standing at
      `current` before the first. */
  function Picks(followers: seq<Conn>, current: Uint64, n: nat): (s: seq<Conn>)
    requires followers != []
    ensures |s| == n
    decreases n
  {
    if n == 0 then [] else
      var next := Advance(current);
      [FollowerAt(followers, next)] + Picks(followers, next, n - 1)
  }

  // How often position `i` of `len` comes up in `n` steps from `at`.
  function Turns(at: nat, n: nat, len: nat, i: nat): nat
    requires at < len
    decreases n
  {
    if n == 0 then 0
    else
      var next := if at + 1 == len then 0 else at + 1;
      (if next == i then 1 else 0) + Turns(next, n - 1, len, i)
  }

  lemma AtLeastOnce(k: nat, len: nat)
    requires k >= 1
    ensures k * len >= len
  {
  }

  lemma DivModUnique(x: nat, q: nat, r: nat, len: nat)
    requires r < len && x == q * len + r
    ensures x % len == r
  {
    var q', r' := x / len, x % len;
    assert x == q' * len + r';
    assert (q' - q) * len == q' * len - q * len;
    if q' > q {
      AtLeastOnce(q' - q, len);
      assert false;
    } else if q' < q {
      AtLeastOnce(q - q', len);
      assert false;
    }
  }

  lemma StepModulo(x: nat, len: nat)
    requires len > 0
    ensures (x + 1) % len == if x % len + 1 == len then 0 else x % len + 1
  {
    var q, r := x / len, x % len;
    assert x == q * len + r;
    if r + 1 == len {
      assert x + 1 == (q + 1) * len + 0;
      DivModUnique(x + 1, q + 1, 0, len);
    } else {
      DivModUnique(x + 1, q, r + 1, len);
    }
  }

  lemma PicksStep(followers: seq<Conn>, current: Uint64, n: nat)
    requires followers != [] && n > 0 && current + n < TWO_64
    ensures Picks(followers, current, n) ==
            [FollowerAt(followers, current + 1)] + Picks(followers, current + 1, n - 1)
  {
    hide FollowerAt;
    assert Advance(current) == current + 1;
  }

  lemma TurnsStep(at: nat, next: nat, n: nat, len: nat, i: nat)
    requires at < len && n > 0 && next == if at + 1 == len then 0 else at + 1
    ensures Turns(at, n, len, i) == (if next == i then 1 else 0) + Turns(next, n - 1, len, i)
  {
  }

  // Counting picks of a follower is counting turns of its position.
  lemma {:induction false} PicksAreTurns(followers: seq<Conn>, current: Uint64, n: nat, at: nat, i: nat)
    requires Distinct(followers) && i < |followers| && current + n < TWO_64
    requires at == current % |followers|
    ensures multiset(Picks(followers, current, n))[followers[i]] == Turns(at, n, |followers|, i)
    decreases n
  {
    hide Distinct, Turns, Picks;
    var len := |followers|;
    if n == 0 {
      NoTurns(at, len, i);
    } else {
      StepModulo(current, len);
      var next := (current + 1) % len;
      PicksStep(followers, current, n);
      TurnsStep(at, next, n, len, i);
      PicksAreTurns(followers, current + 1, n - 1, next, i);
      PickFirst(followers, next, Picks(followers, current + 1, n - 1), i);
    }
  }

  lemma PickFirst(followers: seq<Conn>, k: nat, rest: seq<Conn>, i: nat)
    requires Distinct(followers) && i < |followers| && k < |followers|
    ensures multiset([followers[k]] + rest)[followers[i]] == multiset(rest)[followers[i]] + if k == i then 1 else 0
  {
    assert multiset([followers[k]] + rest) == multiset{followers[k]} + multiset(rest);
    if k != i {
      assert followers[k] != followers[i];
    }
  }

  // Steps until position `i` comes up, not counting the step onto it.
  function Distance(at: nat, len: nat, i: nat): nat
    requires at < len && i < len
  {
    if i > at then i - at - 1 else i + len - at - 1
  }

  /** Position `i` comes up once in every `len` steps, first after `Distance`. */
  lemma {:induction false} TurnsForm(at: nat, n: nat, len: nat, i: nat)
    requires at < len && i < len
    ensures var d := Distance(at, len, i);
            d < len && (n <= d ==> Turns(at, n, len, i) == 0) &&
            (n > d ==> Turns(at, n, len, i) == 1 + Turns(i, n - d - 1, len, i))
    decreases n
  {
    if n > 0 {
      var next := if at + 1 == len then 0 else at + 1;
      if next != i {
        TurnsForm(next, n - 1, len, i);
      }
    }
  }

  lemma {:induction false} TurnsPeriod(at: nat, n: nat, len: nat, i: nat)
    requires at < len && i < len && n >= len
    ensures Turns(at, n, len, i) == 1 + Turns(at, n - len, len, i)
    decreases n
  {
    TurnsForm(at, n, len, i);
    var d := Distance(at, len, i);
    if n - d - 1 >= len {
      TurnsPeriod(i, n - d - 1, len, i);
    } else {
      TurnsForm(i, n - d - 1, len, i);
    }
    TurnsForm(at, n - len, len, i);
  }

  lemma {:induction false} TurnsFair(at: nat, n: nat, len: nat, i: nat, j: nat)
    requires at < len && i < len && j < len
    ensures Turns(at, n, len, i) <= Turns(at, n, len, j) + 1
    decreases n
  {
    if n >= len {
      TurnsPeriod(at, n, len, i);
      TurnsPeriod(at, n, len, j);
      TurnsFair(at, n - len, len, i, j);
    } else {
      TurnsForm(at, n, len, i);
      TurnsForm(at, n, len, j);
      var d, e := Distance(at, len, i), Distance(at, len, j);
      if n > d { TurnsForm(i, n - d - 1, len, i); }
      if n > e { TurnsForm(j, n - e - 1, len, j); }
    }
  }

  /** Over any window of consecutive consume picks from a fixed list of followers,
      wherever the counter stood, any two followers are picked equally often or
      one time apart; over as many picks as there are followers, each once. */
  lemma RoundRobinIsFair(followers: seq<Conn>, current: Uint64, n: nat, i: nat, j: nat)
    requires Distinct(followers) && i < |followers| && j < |followers| && current + n < TWO_64
    ensures var picks := multiset(Picks(followers, current, n));
            picks[followers[i]] <= picks[followers[j]] + 1 && picks[followers[j]] <= picks[followers[i]] + 1 &&
            (n == |followers| ==> picks[followers[i]] == 1)
  {
    hide Turns, Picks;
    var len := |followers|;
    PicksAreTurns(followers, current, n, current % len, i);
    PicksAreTurns(followers, current, n, current % len, j);
    TurnsFair(current % len, n, len, i, j);
    TurnsFair(current % len, n, len, j, i);
    if n == len {
      TurnsPeriod(current % len, n, len, i);
      NoTurns(current % len, len, i);
    }
  }

  lemma NoTurns(at: nat, len: nat, i: nat)
    requires at < len
    ensures Turns(at, 0, len, i) == 0
  {
  }

  /** A run of consume calls gets `Picks`. */
  method ConsumePicks(picker: Picker, n: nat) returns (conns: seq<Conn>)
    requires picker.followers != []
    modifies picker`current
    ensures conns == Picks(picker.followers, old(picker.current), n)
  {
    conns := [];
    var i := 0;
    while i < n
      invariant i <= n && |conns| == i
      invariant Picks(picker.followers, old(picker.current), n) ==
                conns + Picks(picker.followers, picker.current, n - i)
    {
      var conn := picker.NextFollower();
      conns := conns + [conn];
      i := i + 1;
    }
  }
}
