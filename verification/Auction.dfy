/** The goal-pool auction: one node's pass over the pool, with claim records typed instead of
    stored as JSON. Scoring a goal is a function parameter; None means the goal cannot be
    scored. */
module Auction {
  import opened Bytes

  type Key = seq<Byte>

  /** "claim_" */
  const CLAIM_PREFIX: Key := [0x63, 0x6C, 0x61, 0x69, 0x6D, 0x5F]

  /** A stored claim; one that does not parse counts as no claim but can be replaced. */
  datatype Claim = Claim(owner: U64, score: real) | Malformed

  /** What one pass sees: the pool's names, who is asking, and how goals and holders look. */
  datatype Pool = Pool(self: U64, prefix: Key, margin: real,
                       live: Key -> bool,              // the goal record exists
                       score: Key -> Option<real>,
                       silent: U64 -> bool)            // not heard from within the peer time limit

  /** May this node take the claim of `k`, which it scores `s`? */
  predicate Contestable(p: Pool, claims: map<Key, Claim>, k: Key, s: real)
  {
    k !in claims || claims[k].Malformed? || claims[k].owner == p.self || p.silent(claims[k].owner)
    || s > claims[k].score + p.margin
  }

  predicate Eligible(p: Pool, claims: map<Key, Claim>, current: Option<Key>, k: Key)
  {
    && p.prefix <= k && !(CLAIM_PREFIX <= k) && current != Some(k)
    && p.live(k) && p.score(k).Some? && Contestable(p, claims, k, p.score(k).value)
  }

  /** The node still holds `current`: the claim is its own, the goal exists and can be scored. */
  predicate Holds(p: Pool, claims: map<Key, Claim>, current: Option<Key>)
  {
    && current.Some? && current.value in claims && claims[current.value].Claim? && claims[current.value].owner == p.self
    && p.live(current.value) && p.score(current.value).Some?
  }

  ghost function OwnedBy(claims: map<Key, Claim>, id: U64): set<Key>
  {
    set k | k in claims && claims[k].Claim? && claims[k].owner == id
  }

  /** `k` is the first highest-scoring eligible name. */
  ghost predicate IsBest(p: Pool, claims: map<Key, Claim>, current: Option<Key>, names: seq<Key>, n: nat,
                         best: Option<Key>)
    requires n <= |names|
  {
    match best
    case None => forall i :: 0 <= i < n ==> !Eligible(p, claims, current, names[i])
    case Some(k) =>
      && Eligible(p, claims, current, k)
      && (exists i :: 0 <= i < n && names[i] == k &&
            forall j :: 0 <= j < i && Eligible(p, claims, current, names[j]) ==>
                p.score(names[j]).value < p.score(k).value)
      && forall i :: 0 <= i < n && Eligible(p, claims, current, names[i]) ==>
           p.score(names[i]).value <= p.score(k).value
  }

  class ClaimTable {
    var claims: map<Key, Claim>

    /** The scan over the pool's names. */
    method FindBest(p: Pool, current: Option<Key>, names: seq<Key>) returns (best: Option<Key>)
      ensures IsBest(p, claims, current, names, |names|, best)
    {
      best := None;
      for i := 0 to |names|
        invariant IsBest(p, claims, current, names, i, best)
      {
        var k := names[i];
        if Eligible(p, claims, current, k) && (best.None? || p.score(k).value > p.score(best.value).value) {
          best := Some(k);
        }
      }
    }

    /** fleece_embedded_claim_best_goal. `room` says whether the store can take a new claim
        record; without it the write of an absent claim fails. */
    method ClaimBest(p: Pool, current: Option<Key>, names: seq<Key>, reassert: bool, room: bool)
      returns (result: Option<Key>, best: Option<Key>)
      requires p.margin >= 0.0
      modifies this
      ensures IsBest(p, old(claims), current, names, |names|, best)
      // Exactly what happens to every claim.
      ensures Settles(p, old(claims), claims, current, best, reassert, room, result)
      // The result is a key this node owns, of a goal that exists and can be scored.
      ensures result.Some? ==>
                && result.value in claims && claims[result.value].Claim? && claims[result.value].owner == p.self
                && p.live(result.value) && p.score(result.value).Some?
      ensures result.None? <==> !Holds(p, old(claims), current) && (best.None? || !Writable(old(claims), best, room))
      // A newly taken goal is one of the pool, and its claim was free, this node's, a silent
      // node's, or beaten by more than the margin.
      ensures result.Some? && !(result == current && Holds(p, old(claims), current)) ==>
                var k, c := result.value, old(claims);
                && p.prefix <= k && !(CLAIM_PREFIX <= k) && k in names
                && claims[k] == Claim(p.self, p.score(k).value)
                && (k in c && c[k].Claim? && c[k].owner != p.self && !p.silent(c[k].owner) ==>
                      p.score(k).value > c[k].score + p.margin)
      // No goal this node may take scores better by more than the margin, unless the write failed.
      ensures result.Some? && Writable(old(claims), best, room) ==>
                forall i :: 0 <= i < |names| && Open(p, old(claims), names[i]) && current != Some(names[i]) ==>
                  p.score(names[i]).value <= p.score(result.value).value + p.margin
      // A goal is given up only for one that beats it by more than the margin.
      ensures Holds(p, old(claims), current) && result != current ==>
                result.Some? && p.score(result.value).value > p.score(current.value).value + p.margin
      // One claim at a time, if it started that way.
      ensures OwnedBy(old(claims), p.self) == (if Holds(p, old(claims), current) then {current.value} else {}) ==>
                OwnedBy(claims, p.self) == if result.Some? then {result.value} else {}
    {
      var have := Holds(p, claims, current);
      best := FindBest(p, current, names);
      if best.Some? && (!have || p.score(best.value).value > p.score(current.value).value + p.margin) {
        if best.value in claims || room {
          claims := claims[best.value := Claim(p.self, p.score(best.value).value)];
          if have {
            claims := claims - {current.value};
          }
          result := best;
        } else {
          result := if have then current else None;
        }
      } else if have {
        if reassert {
          claims := claims[current.value := Claim(p.self, p.score(current.value).value)];
        }
        result := current;
      } else {
        result := None;
      }
    }
  }

  /** A goal of the pool, not a claim record, that exists, can be scored and whose claim is free,
      unreadable, this node's own, a silent node's, or beaten by more than the margin. */
  ghost predicate Open(p: Pool, claims: map<Key, Claim>, k: Key)
  {
    && p.prefix <= k && !(CLAIM_PREFIX <= k) && p.live(k) && p.score(k).Some?
    && (k in claims ==>
          match claims[k]
          case Malformed => true
          case Claim(owner, score) => owner == p.self || p.silent(owner) || p.score(k).value > score + p.margin)
  }

  /** The claim of `best` can be written: it exists already or the store has room. */
  predicate Writable(claims: map<Key, Claim>, best: Option<Key>, room: bool)
  {
    best.None? || best.value in claims || room
  }

  /** What a pass does to the claims. It tries to switch when it holds nothing or the best goal
      beats the held one by more than the margin. A switch writes the new claim with this node's
      score and removes the old one; a failed switch changes nothing; without a try, the held
      claim is refreshed with the current score when the caller asks for it. */
  ghost predicate Settles(p: Pool, before: map<Key, Claim>, after: map<Key, Claim>, current: Option<Key>,
                          best: Option<Key>, reassert: bool, room: bool, result: Option<Key>)
  {
    var held := Holds(p, before, current);
    if best.Some? && p.score(best.value).Some?
       && (!held || p.score(best.value).value > p.score(current.value).value + p.margin) then
      if !Writable(before, best, room) then after == before && result == (if held then current else None)
      else
        && result == best && best.value in after && after[best.value] == Claim(p.self, p.score(best.value).value)
        && forall k :: k != best.value ==>
             if held && k == current.value then k !in after
             else (k in after <==> k in before) && (k in before ==> after[k] == before[k])
    else
      && result == (if held then current else None)
      && (if held && reassert then after == before[current.value := Claim(p.self, p.score(current.value).value)]
          else after == before)
  }

  /** Two passes: what one node has just taken at its score, another node that counts
      it as live and does not score it higher by more than the margin cannot take. */
  method SecondBidder(table: ClaimTable, p: Pool, current: Option<Key>, names: seq<Key>, room: bool,
                      q: Pool, current': Option<Key>, names': seq<Key>, reassert': bool, room': bool)
    returns (first: Option<Key>, second: Option<Key>)
    requires p.margin >= 0.0 && q.margin >= 0.0 && q.self != p.self && !q.silent(p.self)
    requires forall k :: p.score(k).Some? && q.score(k).Some? ==> q.score(k).value <= p.score(k).value + q.margin
    modifies table
    ensures first.Some? && first != current ==>
              && second != first && first.value in table.claims && p.score(first.value).Some?
              && table.claims[first.value] == Claim(p.self, p.score(first.value).value)
  {
    var best, best';
    first, best := table.ClaimBest(p, current, names, true, room);
    second, best' := table.ClaimBest(q, current', names', reassert', room');
  }
}
