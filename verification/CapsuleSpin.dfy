/**
  The capsule machine of MainServer (CapsuleSpinHandler.h): a loop of paid spins with free lucky spins in between.
  The draw of an item, whether the item could be added, and whether a sale runs at that moment come from outside.
 */
module CapsuleSpin {
  import opened Collections
  import opened Words

  const MAX_LUCKY := 1000
  const MAX_RETRIES := 10
  const MAX_SPINS := 20

  /** Item numbers are 20-bit fields. */
  const ITEM_NUMBERS := 0x10_0000

  datatype Mission = Lucky | Normal

  datatype Capsule = Capsule(kind: nat, price: u32, luckyPoints: u32)
  datatype Prices = Prices(rockTotens: u32, microPoints: u32)

  /**
    The balances and lucky points of the player, in the widths of the account record, and `itemNumber`, the largest
    number among the items he holds.
   */
  datatype Account = Account(coins: nat, rockTotens: nat, microPoints: nat, lucky: nat, itemNumber: nat) {
    predicate Valid()
    {
      && coins < 0x80 && rockTotens < 0x4000_0000 && microPoints < 0x8000_0000
      && lucky < 2048 && itemNumber < ITEM_NUMBERS
    }
  }

  /** One turn of the outside world: an item was drawn, it could be added, a sale is on when it is paid. */
  datatype Draw = Draw(won: bool, added: bool, sale: bool)

  /** What a round did: the mission sent, the number meant for the item, and whether the item was granted. */
  datatype Round = Round(mission: Mission, number: nat, granted: bool) {
    predicate IsPaid() { mission.Normal? && granted }
    predicate IsFree() { mission.Lucky? && granted }
  }

  datatype Loop = Loop(account: Account, spun: nat, retries: nat, rounds: seq<Round>)
  datatype Ending = Finished | NoItem | SingleLucky
  datatype Played = Played(loop: Loop, ending: Ending)

  // ---------------------------------------------------------------- currency

  /** The currency a capsule takes: any kind from 2 on is paid in micro points. */
  function Balance(a: Account, kind: nat): nat
  {
    if kind == 0 then a.coins else if kind == 1 then a.rockTotens else a.microPoints
  }

  function WithBalance(a: Account, kind: nat, n: nat): Account
  {
    if kind == 0 then a.(coins := n) else if kind == 1 then a.(rockTotens := n) else a.(microPoints := n)
  }

  /** The price that is checked before the loop; kinds from 3 on are neither discounted nor checked. */
  function CheckedPrice(c: Capsule, p: Prices, sale: bool): u32
  {
    if sale && c.kind == 1 then p.rockTotens else if sale && c.kind == 2 then p.microPoints else c.price
  }

  /** The price `removeCurrencyByCapsuleType` takes. */
  function PaidPrice(c: Capsule, p: Prices, sale: bool): u32
  {
    if c.kind == 0 || !sale then c.price else if c.kind == 1 then p.rockTotens else p.microPoints
  }

  function SafeSubtract(balance: nat, remove: nat): nat
  {
    if remove >= balance then 0 else balance - remove
  }

  /** `totalPrice`: a product of 32-bit words. */
  function TotalPrice(price: u32, spins: nat): u32 { price * spins % M32 }

  /**
    What a paid round takes, field by field: a coin capsule always its own price in coins, the others during a sale
    the sale price of their currency, down to nothing; and no other field changes.
   */
  lemma ChargeIs(a: Account, c: Capsule, p: Prices, sale: bool)
    ensures var b := WithBalance(a, c.kind, SafeSubtract(Balance(a, c.kind), PaidPrice(c, p, sale)));
            var rt, mp := if sale then p.rockTotens else c.price, if sale then p.microPoints else c.price;
            && b.coins == (if c.kind != 0 then a.coins else if c.price < a.coins then a.coins - c.price else 0)
            && b.rockTotens == (if c.kind != 1 then a.rockTotens
                                else if rt < a.rockTotens then a.rockTotens - rt else 0)
            && b.microPoints == (if c.kind < 2 then a.microPoints
                                 else if mp < a.microPoints then a.microPoints - mp else 0)
            && b.lucky == a.lucky && b.itemNumber == a.itemNumber
  {
  }

  predicate NotEnough(a: Account, c: Capsule, p: Prices, sale: bool, spins: nat)
  {
    c.kind <= 2 && Balance(a, c.kind) < TotalPrice(CheckedPrice(c, p, sale), spins)
  }

  /**
    Exactly when a request is refused for want of money, field by field: the price of all spins, as a 32-bit product,
    exceeds the balance of the capsule's own currency; kinds from 3 on are never refused.
   */
  lemma NotEnoughIff(a: Account, c: Capsule, p: Prices, sale: bool, spins: nat)
    ensures var rt, mp := if sale then p.rockTotens else c.price, if sale then p.microPoints else c.price;
            NotEnough(a, c, p, sale, spins) <==>
              || (c.kind == 0 && c.price * spins % 0x1_0000_0000 > a.coins)
              || (c.kind == 1 && rt * spins % 0x1_0000_0000 > a.rockTotens)
              || (c.kind == 2 && mp * spins % 0x1_0000_0000 > a.microPoints)
  {
  }

  /** The 11-bit field wraps. */
  function AddLucky(lucky: nat, points: u32): nat { (lucky + points) % 2048 }

  // ---------------------------------------------------------------- one round and the loop

  function Start(a: Account): Loop { Loop(a, 0, 0, []) }

  predicate IsLucky(s: Loop) { s.account.lucky >= MAX_LUCKY }

  predicate Going(s: Loop, spins: nat) { s.spun < spins && s.retries < MAX_RETRIES }

  /** The number behind the largest one held. */
  function NextNumber(largest: nat): nat { (largest + 1) % ITEM_NUMBERS }

  /** The largest number held once an item with that number is. */
  function Held(largest: nat, number: nat): nat { if number > largest then number else largest }

  /** The account once the mission is chosen: a lucky spin uses up all points. */
  function Chosen(s: Loop): Account { if IsLucky(s) then s.account.(lucky := 0) else s.account }

  /** One round in which an item was drawn. */
  function Next(c: Capsule, p: Prices, s: Loop, d: Draw): Loop
  {
    var mission := if IsLucky(s) then Lucky else Normal;
    var number := NextNumber(s.account.itemNumber);
    var rounds := s.rounds + [Round(mission, number, d.added)];
    if !d.added then Loop(Chosen(s), s.spun, s.retries + 1, rounds)
    else
      var a := Chosen(s).(itemNumber := Held(s.account.itemNumber, number));
      if mission == Lucky then Loop(a, s.spun, s.retries, rounds)
      else
        var paid := WithBalance(a, c.kind, SafeSubtract(Balance(a, c.kind), PaidPrice(c, p, d.sale)));
        Loop(paid.(lucky := AddLucky(paid.lucky, c.luckyPoints)), s.spun + 1, s.retries, rounds)
  }

  /** The whole loop; the `k`-th round meets `draws(k)`. */
  function Play(c: Capsule, p: Prices, spins: nat, draws: nat -> Draw, s: Loop): (r: Played)
    decreases spins - s.spun + MAX_RETRIES - s.retries, IsLucky(s)
  {
    if !Going(s, spins) then Played(s, Finished)
    else
      var d := draws(|s.rounds|);
      if !d.won then Played(s.(account := Chosen(s)), NoItem)
      else
        var t := Next(c, p, s, d);
        if spins == 1 && IsLucky(s) && d.added then Played(t, SingleLucky)
        else Play(c, p, spins, draws, t)
  }

  // ---------------------------------------------------------------- what the rounds of a run look like

  function Paid(rounds: seq<Round>): nat
  {
    if rounds == [] then 0
    else Paid(rounds[..|rounds| - 1]) + if rounds[|rounds| - 1].IsPaid() then 1 else 0
  }

  function Refused(rounds: seq<Round>): nat
  {
    if rounds == [] then 0 else Refused(rounds[..|rounds| - 1]) + if rounds[|rounds| - 1].granted then 0 else 1
  }

  /** No two lucky rounds in a row. */
  predicate Alternating(rounds: seq<Round>)
  {
    forall k :: 0 < k < |rounds| ==> rounds[k - 1].mission.Normal? || rounds[k].mission.Normal?
  }

  predicate EndsLucky(rounds: seq<Round>)
  {
    rounds != [] && rounds[|rounds| - 1].mission.Lucky?
  }

  /** The counters are the numbers of paid and of refused rounds, and a lucky round leaves no points behind. */
  predicate Ledger(s: Loop)
  {
    && s.spun == Paid(s.rounds) && s.retries == Refused(s.rounds)
    && Alternating(s.rounds) && (EndsLucky(s.rounds) ==> s.account.lucky == 0)
  }

  lemma NextLedger(c: Capsule, p: Prices, s: Loop, d: Draw)
    requires Ledger(s)
    ensures Ledger(Next(c, p, s, d))
  {
    var t := Next(c, p, s, d);
    assert t.rounds[..|t.rounds| - 1] == s.rounds;
  }

  /** Over every run there are never two lucky rounds in a row, and every counted spin was paid and granted. */
  lemma {:induction false} PlayLedger(c: Capsule, p: Prices, spins: nat, draws: nat -> Draw, s: Loop)
    requires Ledger(s) && s.spun <= spins && s.retries <= MAX_RETRIES
    ensures var r := Play(c, p, spins, draws, s).loop;
            Ledger(r) && r.spun <= spins && r.retries <= MAX_RETRIES
    decreases spins - s.spun + MAX_RETRIES - s.retries, IsLucky(s)
  {
    hide Paid, Refused, Alternating;
    if !Going(s, spins) || !draws(|s.rounds|).won {
    } else {
      var d := draws(|s.rounds|);
      NextLedger(c, p, s, d);
      if !(spins == 1 && IsLucky(s) && d.added) {
        PlayLedger(c, p, spins, draws, Next(c, p, s, d));
      }
    }
  }

  /** The granted lucky rounds, which advance no counter. */
  function Free(rounds: seq<Round>): nat
  {
    if rounds == [] then 0
    else Free(rounds[..|rounds| - 1]) + if rounds[|rounds| - 1].IsFree() then 1 else 0
  }

  lemma {:induction false} RoundKinds(rounds: seq<Round>)
    ensures |rounds| == Paid(rounds) + Refused(rounds) + Free(rounds)
    decreases |rounds|
  {
    if rounds == [] {
    } else {
      RoundKinds(rounds[..|rounds| - 1]);
    }
  }

  /** There is at most one free round more than paid ones, and after one more there are no points. */
  predicate Earned(s: Loop, spins: nat)
  {
    && Ledger(s) && s.spun <= spins && s.retries <= MAX_RETRIES && s.spun + s.retries <= spins + MAX_RETRIES - 1
    && Free(s.rounds) <= spins && Free(s.rounds) <= s.spun + 1
    && (Free(s.rounds) == s.spun + 1 ==> s.account.lucky == 0)
  }

  lemma NextEarned(c: Capsule, p: Prices, s: Loop, d: Draw, spins: nat)
    requires Earned(s, spins) && Going(s, spins)
    ensures Earned(Next(c, p, s, d), spins)
  {
    hide Paid, Refused, Alternating;
    NextLedger(c, p, s, d);
    var t := Next(c, p, s, d);
    assert t.rounds[..|t.rounds| - 1] == s.rounds;
  }

  lemma {:induction false} PlayEarned(c: Capsule, p: Prices, spins: nat, draws: nat -> Draw, s: Loop)
    requires Earned(s, spins)
    ensures Earned(Play(c, p, spins, draws, s).loop, spins)
    decreases spins - s.spun + MAX_RETRIES - s.retries, IsLucky(s)
  {
    hide Paid, Refused, Alternating, Free;
    if !Going(s, spins) || !draws(|s.rounds|).won {
    } else {
      var d := draws(|s.rounds|);
      NextEarned(c, p, s, d, spins);
      if !(spins == 1 && IsLucky(s) && d.added) {
        PlayEarned(c, p, spins, draws, Next(c, p, s, d));
      }
    }
  }

  /** The most rounds a loop for `spins` spins takes: 10 for one spin, which any granted item ends; 49 for twenty. */
  function MostRounds(spins: nat): nat
  {
    if spins == 0 then 0 else if spins == 1 then 10 else 2 * spins + 9
  }

  /** However the draws turn out, the loop ends after at most that many rounds. */
  lemma PlayBounded(c: Capsule, p: Prices, spins: nat, draws: nat -> Draw, a: Account)
    ensures |Play(c, p, spins, draws, Start(a)).loop.rounds| <= MostRounds(spins)
  {
    if spins == 0 {
      PlayStops(c, p, spins, draws, Start(a));
    } else if spins == 1 {
      SingleBounded(c, p, draws, Start(a));
    } else {
      PlayEarned(c, p, spins, draws, Start(a));
      RoundKinds(Play(c, p, spins, draws, Start(a)).loop.rounds);
    }
  }

  lemma {:induction false} SingleBounded(c: Capsule, p: Prices, draws: nat -> Draw, s: Loop)
    requires s.spun == 0 && |s.rounds| == s.retries <= MAX_RETRIES
    ensures |Play(c, p, 1, draws, s).loop.rounds| <= MAX_RETRIES
    decreases MAX_RETRIES - s.retries
  {
    if !Going(s, 1) || !draws(|s.rounds|).won {
    } else {
      var d := draws(|s.rounds|);
      var t := Next(c, p, s, d);
      PlayTurn(c, p, 1, draws, s);
      if !d.added {
        SingleBounded(c, p, draws, t);
      } else if !IsLucky(s) {
        PlayStops(c, p, 1, draws, t);
      }
    }
  }

  /** Nine failures behind the first round and no other; for one spin, failures only. */
  function Longest(spins: nat): nat -> Draw
  {
    (k: nat) => Draw(true, spins != 1 && !(1 <= k <= 9), false)
  }

  /** A capsule of a thousand points for an account that has as many: a free round before every paid one. */
  lemma BoundReached(p: Prices, price: u32, spins: nat)
    ensures var c, a := Capsule(0, price, 1000), Account(0, 0, 0, 1000, 0);
            |Play(c, p, spins, Longest(spins), Start(a)).loop.rounds| == MostRounds(spins)
  {
    var c, a := Capsule(0, price, 1000), Account(0, 0, 0, 1000, 0);
    if spins == 0 {
      PlayStops(c, p, spins, Longest(spins), Start(a));
    } else if spins == 1 {
      RefusalsReached(p, c, Start(a));
    } else {
      var s := Next(c, p, Start(a), Longest(spins)(0));
      assert s.account.lucky == 0 && |s.rounds| == 1;
      PlayTurn(c, p, spins, Longest(spins), Start(a));
      FailuresReached(p, c, spins, s);
    }
  }

  lemma {:induction false} RefusalsReached(p: Prices, c: Capsule, s: Loop)
    requires s.spun == 0 && |s.rounds| == s.retries <= MAX_RETRIES
    ensures |Play(c, p, 1, Longest(1), s).loop.rounds| == MAX_RETRIES
    decreases MAX_RETRIES - s.retries
  {
    if s.retries == MAX_RETRIES {
      PlayStops(c, p, 1, Longest(1), s);
    } else {
      PlayTurn(c, p, 1, Longest(1), s);
      RefusalsReached(p, c, Next(c, p, s, Longest(1)(|s.rounds|)));
    }
  }

  lemma {:induction false} FailuresReached(p: Prices, c: Capsule, spins: nat, s: Loop)
    requires spins >= 2 && c.luckyPoints == 1000 && s.spun == 0 && s.account.lucky == 0
    requires s.retries <= 9 && |s.rounds| == 1 + s.retries
    ensures |Play(c, p, spins, Longest(spins), s).loop.rounds| == 2 * spins + 9
    decreases 9 - s.retries
  {
    if s.retries == 9 {
      PairsReached(p, c, spins, s);
    } else {
      PlayTurn(c, p, spins, Longest(spins), s);
      FailuresReached(p, c, spins, Next(c, p, s, Longest(spins)(|s.rounds|)));
    }
  }

  /** Paid and free rounds in turn, up to the last paid one. */
  lemma {:induction false} PairsReached(p: Prices, c: Capsule, spins: nat, s: Loop)
    requires spins >= 2 && c.luckyPoints == 1000 && s.spun < spins && s.account.lucky == 0
    requires s.retries == 9 && |s.rounds| == 10 + 2 * s.spun
    ensures |Play(c, p, spins, Longest(spins), s).loop.rounds| == 2 * spins + 9
    decreases spins - s.spun
  {
    var t := Next(c, p, s, Longest(spins)(|s.rounds|));
    PlayTurn(c, p, spins, Longest(spins), s);
    assert t.account.lucky == 1000 && t.spun == s.spun + 1;
    if t.spun == spins {
      PlayStops(c, p, spins, Longest(spins), t);
    } else {
      PlayTurn(c, p, spins, Longest(spins), t);
      PairsReached(p, c, spins, Next(c, p, t, Longest(spins)(|t.rounds|)));
    }
  }

  // ---------------------------------------------------------------- the lucky points

  /** The points after some rounds when every paid one adds `points` and every lucky one uses all up. */
  function PointsAfter(start: nat, points: nat, rounds: seq<Round>): nat
  {
    if rounds == [] then start
    else
      var before, last := PointsAfter(start, points, rounds[..|rounds| - 1]), rounds[|rounds| - 1];
      if last.mission.Lucky? then 0 else if last.granted then before + points else before
  }

  /** Each round is lucky exactly when the points before it reach the threshold. */
  predicate LuckyWhenDue(start: nat, points: nat, rounds: seq<Round>)
  {
    forall k :: 0 <= k < |rounds| ==>
      (rounds[k].mission.Lucky? <==> PointsAfter(start, points, rounds[..k]) >= MAX_LUCKY)
  }

  predicate PointsKept(start: nat, points: nat, s: Loop)
  {
    s.account.lucky == PointsAfter(start, points, s.rounds) && LuckyWhenDue(start, points, s.rounds)
  }

  /** The ledger of a whole run; a lucky round for which no item is drawn still uses up the points. */
  predicate PointsAccounted(start: nat, points: nat, r: Played)
  {
    var due := PointsAfter(start, points, r.loop.rounds);
    && LuckyWhenDue(start, points, r.loop.rounds)
    && r.loop.account.lucky == if r.ending.NoItem? && due >= MAX_LUCKY then 0 else due
  }

  lemma LuckyAfterNext(c: Capsule, p: Prices, s: Loop, d: Draw)
    ensures var t := Next(c, p, s, d);
            && |t.rounds| == |s.rounds| + 1 && t.rounds[..|s.rounds|] == s.rounds
            && (t.rounds[|s.rounds|].mission.Lucky? <==> IsLucky(s)) && t.rounds[|s.rounds|].granted == d.added
            && t.account.lucky == if IsLucky(s) then 0 else if d.added then AddLucky(s.account.lucky, c.luckyPoints)
                                  else s.account.lucky
  {
    hide PaidPrice, SafeSubtract, AddLucky, NextNumber, Held;
  }

  lemma PointsAfterAppend(start: nat, points: nat, rounds: seq<Round>, last: Round)
    ensures PointsAfter(start, points, rounds + [last])
         == if last.mission.Lucky? then 0
            else PointsAfter(start, points, rounds) + if last.granted then points else 0
  {
    assert (rounds + [last])[..|rounds|] == rounds;
  }

  lemma LuckyWhenDueAppend(start: nat, points: nat, rounds: seq<Round>, last: Round)
    requires LuckyWhenDue(start, points, rounds)
    requires last.mission.Lucky? <==> PointsAfter(start, points, rounds) >= MAX_LUCKY
    ensures LuckyWhenDue(start, points, rounds + [last])
  {
    hide PointsAfter;
    var all := rounds + [last];
    forall k | 0 <= k < |all|
      ensures all[k].mission.Lucky? <==> PointsAfter(start, points, all[..k]) >= MAX_LUCKY
    {
      assert all[..k] == rounds[..k];
      assert k == |rounds| ==> rounds[..k] == rounds;
    }
  }

  lemma NextPoints(start: nat, c: Capsule, p: Prices, s: Loop, d: Draw)
    requires c.luckyPoints <= 1048 && PointsKept(start, c.luckyPoints, s)
    ensures PointsKept(start, c.luckyPoints, Next(c, p, s, d))
  {
    hide Next, PointsAfter, LuckyWhenDue;
    var t := Next(c, p, s, d);
    LuckyAfterNext(c, p, s, d);
    var last := t.rounds[|s.rounds|];
    assert t.rounds == s.rounds + [last];
    PointsAfterAppend(start, c.luckyPoints, s.rounds, last);
    LuckyWhenDueAppend(start, c.luckyPoints, s.rounds, last);
  }

  lemma {:induction false} PlayPoints(start: nat, c: Capsule, p: Prices, spins: nat, draws: nat -> Draw, s: Loop)
    requires c.luckyPoints <= 1048 && PointsKept(start, c.luckyPoints, s)
    ensures PointsAccounted(start, c.luckyPoints, Play(c, p, spins, draws, s))
    decreases spins - s.spun + MAX_RETRIES - s.retries, IsLucky(s)
  {
    hide PointsAfter, LuckyWhenDue;
    if !Going(s, spins) || !draws(|s.rounds|).won {
    } else {
      var d := draws(|s.rounds|);
      NextPoints(start, c, p, s, d);
      if !(spins == 1 && IsLucky(s) && d.added) {
        PlayPoints(start, c, p, spins, draws, Next(c, p, s, d));
      }
    }
  }

  lemma StartPoints(a: Account, points: nat)
    ensures PointsKept(a.lucky, points, Start(a))
  {
  }

  /**
    Over every run of every account the lucky points are the sum of what the paid rounds gave since the last lucky
    round, and a round is lucky exactly when they reach the threshold, if and only if the capsule gives at most 1048
    points: with more, the 11-bit field can wrap.
   */
  lemma PointsAccountedIff(c: Capsule, p: Prices)
    ensures (forall a: Account, spins: nat, draws: nat -> Draw ::
               PointsAccounted(a.lucky, c.luckyPoints, Play(c, p, spins, draws, Start(a))))
       <==> c.luckyPoints <= 1048
  {
    hide PointsAccounted;
    if c.luckyPoints <= 1048 {
      forall a: Account, spins: nat, draws: nat -> Draw
        ensures PointsAccounted(a.lucky, c.luckyPoints, Play(c, p, spins, draws, Start(a)))
      {
        StartPoints(a, c.luckyPoints);
        PlayPoints(a.lucky, c, p, spins, draws, Start(a));
      }
    } else {
      var a, draws := Account(0, 0, 0, 999, 0), (_: nat) => Draw(true, true, false);
      WrapLosesPoints(c, p, a, draws);
      assert !PointsAccounted(a.lucky, c.luckyPoints, Play(c, p, 1, draws, Start(a)));
    }
  }

  lemma OneSpin(c: Capsule, p: Prices, a: Account, draws: nat -> Draw)
    requires a.lucky < MAX_LUCKY && draws(0) == Draw(true, true, false)
    ensures Play(c, p, 1, draws, Start(a)) == Played(Next(c, p, Start(a), draws(0)), Finished)
  {
    hide PaidPrice, SafeSubtract, AddLucky, NextNumber, Held;
    PlayTurn(c, p, 1, draws, Start(a));
    PlayStops(c, p, 1, draws, Next(c, p, Start(a), draws(0)));
  }

  /** One paid spin at 999 points of a capsule that gives too many. */
  lemma WrapLosesPoints(c: Capsule, p: Prices, a: Account, draws: nat -> Draw)
    requires c.luckyPoints > 1048 && a.lucky == 999 && draws(0) == Draw(true, true, false)
    ensures !PointsAccounted(a.lucky, c.luckyPoints, Play(c, p, 1, draws, Start(a)))
  {
    hide Play, Next, PointsAfter, LuckyWhenDue;
    var t := Next(c, p, Start(a), draws(0));
    LuckyAfterNext(c, p, Start(a), draws(0));
    OneSpin(c, p, a, draws);
    var last := t.rounds[0];
    assert t.rounds == [] + [last];
    PointsAfterAppend(a.lucky, c.luckyPoints, [], last);
    StartPoints(a, c.luckyPoints);
  }

  // ---------------------------------------------------------------- the item numbers

  function GrantedCount(rounds: seq<Round>): nat
  {
    if rounds == [] then 0 else GrantedCount(rounds[..|rounds| - 1]) + if rounds[|rounds| - 1].granted then 1 else 0
  }

  /** The largest number held after `n` more items, up to the end of the 20-bit field. */
  function HeldAfter(start: nat, n: nat): nat
  {
    if start + n < ITEM_NUMBERS then start + n else if start < ITEM_NUMBERS then ITEM_NUMBERS - 1 else start
  }

  /** The largest number counts the granted items, and every round means the number behind those granted before it. */
  predicate Numbered(start: nat, s: Loop)
  {
    && s.account.itemNumber == HeldAfter(start, GrantedCount(s.rounds))
    && forall k :: 0 <= k < |s.rounds| ==>
         s.rounds[k].number == NextNumber(HeldAfter(start, GrantedCount(s.rounds[..k])))
  }

  lemma HeldStep(start: nat, n: nat)
    ensures Held(HeldAfter(start, n), NextNumber(HeldAfter(start, n))) == HeldAfter(start, n + 1)
    ensures HeldAfter(HeldAfter(start, 1), n) == HeldAfter(start, n + 1) && HeldAfter(start, 0) == start
  {
  }

  lemma NumberAfterNext(c: Capsule, p: Prices, s: Loop, d: Draw)
    ensures var t, number := Next(c, p, s, d), NextNumber(s.account.itemNumber);
            && t.rounds == s.rounds + [Round(if IsLucky(s) then Lucky else Normal, number, d.added)]
            && t.account.itemNumber == if d.added then Held(s.account.itemNumber, number) else s.account.itemNumber
  {
    hide PaidPrice, SafeSubtract, AddLucky, NextNumber, Held;
  }

  lemma NextNumbered(start: nat, c: Capsule, p: Prices, s: Loop, d: Draw)
    requires Numbered(start, s)
    ensures Numbered(start, Next(c, p, s, d))
  {
    hide Next, NextNumber, Held, HeldAfter;
    var t, n := Next(c, p, s, d), GrantedCount(s.rounds);
    NumberAfterNext(c, p, s, d);
    HeldStep(start, n);
    assert t.rounds[..|t.rounds| - 1] == s.rounds;
    forall k | 0 <= k < |t.rounds|
      ensures t.rounds[k].number == NextNumber(HeldAfter(start, GrantedCount(t.rounds[..k])))
    {
      assert t.rounds[..k] == s.rounds[..k];
      assert k == |s.rounds| ==> s.rounds[..k] == s.rounds;
    }
  }

  /**
    Over every run the largest item number grows by one for each granted item, paid or free, and a refused item's
    number is meant for the next one again.
   */
  lemma {:induction false} PlayNumbered(start: nat, c: Capsule, p: Prices, spins: nat, draws: nat -> Draw, s: Loop)
    requires Numbered(start, s)
    ensures Numbered(start, Play(c, p, spins, draws, s).loop)
    decreases spins - s.spun + MAX_RETRIES - s.retries, IsLucky(s)
  {
    hide GrantedCount, HeldAfter, NextNumber;
    if !Going(s, spins) || !draws(|s.rounds|).won {
    } else {
      var d := draws(|s.rounds|);
      NextNumbered(start, c, p, s, d);
      if !(spins == 1 && IsLucky(s) && d.added) {
        PlayNumbered(start, c, p, spins, draws, Next(c, p, s, d));
      }
    }
  }

  lemma {:induction false} GrantedIsPaidOrFree(rounds: seq<Round>)
    ensures GrantedCount(rounds) == Paid(rounds) + Free(rounds)
    decreases |rounds|
  {
    if rounds == [] {
    } else {
      GrantedIsPaidOrFree(rounds[..|rounds| - 1]);
    }
  }

  // ---------------------------------------------------------------- the money

  /** `n` payments of one price, each stopping at zero. */
  function Charged(balance: nat, price: nat, n: nat): nat
  {
    SafeSubtract(balance, Times(price, n))
  }

  function Times(price: nat, n: nat): nat { price * n }

  lemma ChargedStep(balance: nat, price: nat, n: nat)
    ensures Charged(SafeSubtract(balance, price), price, n) == Charged(balance, price, n + 1)
  {
    assert Times(price, n + 1) == Times(price, n) + price;
  }

  lemma ChargedNothing(balance: nat, price: nat)
    ensures Charged(balance, price, 0) == balance
  {
  }

  /** The account after `paid` payments and `granted` items. */
  function Settled(a: Account, kind: nat, price: nat, paid: nat, granted: nat, lucky: nat): Account
  {
    WithBalance(a, kind, Charged(Balance(a, kind), price, paid))
      .(itemNumber := HeldAfter(a.itemNumber, granted), lucky := lucky)
  }

  /** What a round does to the account: a granted one advances the item number, a paid one takes one price. */
  lemma NextSettles(c: Capsule, p: Prices, s: Loop, d: Draw)
    ensures var t := Next(c, p, s, d);
            var paid, granted := if d.added && !IsLucky(s) then 1 else 0, if d.added then 1 else 0;
            && t.spun == s.spun + paid && GrantedCount(t.rounds) == GrantedCount(s.rounds) + granted
            && t.account == Settled(s.account, c.kind, PaidPrice(c, p, d.sale), paid, granted, t.account.lucky)
  {
    hide PaidPrice, AddLucky, Times;
    var t, price := Next(c, p, s, d), PaidPrice(c, p, d.sale);
    assert t.rounds[..|t.rounds| - 1] == s.rounds;
    HeldStep(s.account.itemNumber, 0);
    TimesFew(price);
  }

  lemma TimesFew(price: nat)
    ensures Times(price, 0) == 0 && Times(price, 1) == price
  {
  }

  /** Two settlements in turn are one. */
  lemma SettledTwice(a: Account, kind: nat, price: nat, paid: nat, granted: nat, more: nat, items: nat, l: nat, m: nat)
    requires paid <= 1 && granted <= 1
    ensures Settled(Settled(a, kind, price, paid, granted, l), kind, price, more, items, m)
         == Settled(a, kind, price, paid + more, granted + items, m)
  {
    hide Charged;
    ChargedStep(Balance(a, kind), price, more);
    ChargedStep(Balance(a, kind), price, 0);
    ChargedNothing(Balance(a, kind), price);
    ChargedNothing(SafeSubtract(Balance(a, kind), price), price);
    HeldStep(a.itemNumber, items);
  }

  /**
    Over every run, for any currency and while the sale state does not change: exactly the paid spins are charged,
    one price each, lucky spins and failed ones are free, the other balances stay, and the largest item number grows
    with the granted items.
   */
  lemma {:induction false} PlaySettles(c: Capsule, p: Prices, spins: nat, draws: nat -> Draw, s: Loop, sale: bool)
    requires forall k :: draws(k).sale == sale
    ensures var r := Play(c, p, spins, draws, s).loop;
            && r.spun >= s.spun && GrantedCount(r.rounds) >= GrantedCount(s.rounds)
            && r.account == Settled(s.account, c.kind, PaidPrice(c, p, sale), r.spun - s.spun,
                                    GrantedCount(r.rounds) - GrantedCount(s.rounds), r.account.lucky)
    decreases spins - s.spun + MAX_RETRIES - s.retries, IsLucky(s)
  {
    hide PaidPrice, Settled, GrantedCount;
    var price := PaidPrice(c, p, sale);
    if Going(s, spins) && draws(|s.rounds|).won {
      var d := draws(|s.rounds|);
      var t := Next(c, p, s, d);
      NextSettles(c, p, s, d);
      if !(spins == 1 && IsLucky(s) && d.added) {
        var r := Play(c, p, spins, draws, t).loop;
        PlaySettles(c, p, spins, draws, t, sale);
        var first, all := GrantedCount(t.rounds) - GrantedCount(s.rounds), GrantedCount(r.rounds);
        SettledTwice(s.account, c.kind, price, t.spun - s.spun, first, r.spun - t.spun,
                     all - GrantedCount(t.rounds), t.account.lucky, r.account.lucky);
      }
    } else {
      NothingSettled(s.account, c.kind, price, Play(c, p, spins, draws, s).loop.account.lucky);
    }
  }

  lemma NothingSettled(a: Account, kind: nat, price: nat, lucky: nat)
    ensures Settled(a, kind, price, 0, 0, lucky) == a.(lucky := lucky)
  {
    ChargedNothing(Balance(a, kind), price);
  }

  /**
    When the price of all spins fits in 32 bits, a run that passed the check pays exactly price times paid spins:
    nothing is lost to the subtraction stopping at zero.
   */
  lemma ExactWithoutOverflow(a: Account, c: Capsule, p: Prices, sale: bool, spins: nat, draws: nat -> Draw)
    requires c.kind <= 2 && !NotEnough(a, c, p, sale, spins) && forall k :: draws(k).sale == sale
    requires Times(CheckedPrice(c, p, sale), spins) < M32
    ensures var r := Play(c, p, spins, draws, Start(a)).loop;
            Balance(a, c.kind) == Balance(r.account, c.kind) + Times(CheckedPrice(c, p, sale), r.spun)
  {
    var r, price := Play(c, p, spins, draws, Start(a)).loop, CheckedPrice(c, p, sale);
    hide Play, Settled, Charged, Balance, Ledger, Times;
    StartLedger(a);
    PlayLedger(c, p, spins, draws, Start(a));
    PlaySettles(c, p, spins, draws, Start(a), sale);
    SettledBalance(a, c.kind, price, r.spun, GrantedCount(r.rounds) - GrantedCount([]), r.account.lucky);
    Affordable(Balance(a, c.kind), price, r.spun, spins);
  }

  lemma StartLedger(a: Account)
    ensures Ledger(Start(a))
  {
  }

  lemma SettledBalance(a: Account, kind: nat, price: nat, paid: nat, granted: nat, lucky: nat)
    ensures Balance(Settled(a, kind, price, paid, granted, lucky), kind) == Charged(Balance(a, kind), price, paid)
  {
  }

  /** Who can pay all spins without overflow pays some of them in full. */
  lemma Affordable(balance: nat, price: u32, paid: nat, spins: nat)
    requires paid <= spins && Times(price, spins) < M32 && TotalPrice(price, spins) <= balance
    ensures balance == Charged(balance, price, paid) + Times(price, paid)
  {
    MulMonotone(paid, spins, price);
  }

  predicate Exact(a: Account, c: Capsule, p: Prices, sale: bool, spins: nat, draws: nat -> Draw)
  {
    var r := Play(c, p, spins, draws, Start(a)).loop;
    Balance(a, c.kind) == Balance(r.account, c.kind) + Times(CheckedPrice(c, p, sale), r.spun)
  }

  ghost predicate Steady(draws: nat -> Draw, sale: bool) { forall k :: draws(k).sale == sale }

  function AllGranted(sale: bool): nat -> Draw { _ => Draw(true, true, sale) }

  /** When every draw succeeds every spin is paid, except that a single spin may be a free one. */
  lemma {:induction false} AllPaid(c: Capsule, p: Prices, spins: nat, sale: bool, s: Loop)
    requires spins != 1 && s.spun <= spins && s.retries < MAX_RETRIES
    ensures Play(c, p, spins, AllGranted(sale), s).loop.spun == spins
    decreases spins - s.spun, IsLucky(s)
  {
    if s.spun == spins {
      PlayStops(c, p, spins, AllGranted(sale), s);
    } else {
      PlayTurn(c, p, spins, AllGranted(sale), s);
      AllPaid(c, p, spins, sale, Next(c, p, s, Draw(true, true, sale)));
    }
  }

  /**
    Exactly when the check protects the charge: for a request that passed it, every run in one sale state costs price
    times paid spins if and only if the price of all requested spins fits in 32 bits.
   */
  lemma ExactIff(a: Account, c: Capsule, p: Prices, sale: bool, spins: nat)
    requires a.Valid() && c.kind <= 2 && !NotEnough(a, c, p, sale, spins)
    ensures (forall draws: nat -> Draw :: Steady(draws, sale) ==> Exact(a, c, p, sale, spins, draws))
       <==> Times(CheckedPrice(c, p, sale), spins) < M32
  {
    hide Play, Times, NotEnough, Steady;
    if Times(CheckedPrice(c, p, sale), spins) < M32 {
      forall draws: nat -> Draw | Steady(draws, sale) ensures Exact(a, c, p, sale, spins, draws) {
        SteadyAll(draws, sale);
        ExactWithoutOverflow(a, c, p, sale, spins, draws);
      }
    } else {
      OverflowNeedsTwo(CheckedPrice(c, p, sale), spins);
      AllPaid(c, p, spins, sale, Start(a));
      GrantedSteady(sale);
      assert !Exact(a, c, p, sale, spins, AllGranted(sale));
    }
  }

  lemma SteadyAll(draws: nat -> Draw, sale: bool)
    requires Steady(draws, sale)
    ensures forall k :: draws(k).sale == sale
  {
  }

  lemma GrantedSteady(sale: bool)
    ensures Steady(AllGranted(sale), sale)
  {
  }

  lemma OverflowNeedsTwo(price: u32, spins: nat)
    requires Times(price, spins) >= M32
    ensures spins >= 2
  {
  }

  /** The overflowing case exists: two spins at half the word range pass the check with an empty balance. */
  lemma OverflowReachable(p: Prices)
    ensures var c, a := Capsule(2, 0x8000_0000, 0), Account(0, 0, 0, 0, 0);
            && !NotEnough(a, c, p, false, 2)
            && Play(c, p, 2, _ => Draw(true, true, false), Start(a)).loop.spun == 2
  {
    var c, a, draws := Capsule(2, 0x8000_0000, 0), Account(0, 0, 0, 0, 0), (_: nat) => Draw(true, true, false);
    var s := Next(c, p, Start(a), draws(0));
    var t := Next(c, p, s, draws(1));
    PlayTurn(c, p, 2, draws, Start(a));
    PlayTurn(c, p, 2, draws, s);
    PlayStops(c, p, 2, draws, t);
  }

  // ---------------------------------------------------------------- the session

  datatype Reply = NotEnoughCurrency(kind: nat) | InventoryFull | SpinFail | Spun(mission: Mission, number: nat)

  /** The packets of the granted rounds. */
  function Granted(rounds: seq<Round>): seq<Reply>
  {
    if rounds == [] then []
    else
      var last := rounds[|rounds| - 1];
      Granted(rounds[..|rounds| - 1]) + if last.granted then [Spun(last.mission, last.number)] else []
  }

  lemma GrantedAppend(rounds: seq<Round>, last: Round)
    ensures Granted(rounds + [last]) == Granted(rounds) + if last.granted then [Spun(last.mission, last.number)] else []
  {
    assert (rounds + [last])[..|rounds|] == rounds;
  }

  /** One packet for each granted round and no other, in order, with the round's mission and item number. */
  lemma {:induction false} GrantedSent(rounds: seq<Round>, k: nat)
    requires k < |rounds|
    ensures |Granted(rounds)| == GrantedCount(rounds)
    ensures rounds[k].granted ==>
              var before := GrantedCount(rounds[..k]);
              before < |Granted(rounds)| && Granted(rounds)[before] == Spun(rounds[k].mission, rounds[k].number)
    decreases |rounds|
  {
    var front := rounds[..|rounds| - 1];
    assert k < |front| ==> rounds[..k] == front[..k];
    if front == [] {
    } else {
      GrantedSent(front, if k < |front| then k else 0);
    }
  }

  /** Why a loop ended: all spins done or too many refusals, no item drawn, or the free round of a single spin. */
  predicate EndedRightly(spins: nat, draws: nat -> Draw, r: Played)
  {
    var s, n := r.loop, |r.loop.rounds|;
    match r.ending
    case Finished => s.spun >= spins || s.retries >= 10
    case NoItem => s.spun < spins && s.retries < 10 && !draws(n).won
    case SingleLucky => spins == 1 && n > 0 && s.rounds[n - 1].IsFree()
  }

  /** Rounds are played for won draws only, each granted as its draw says, and the loop ends for one of its reasons. */
  lemma {:induction false} PlayEnds(c: Capsule, p: Prices, spins: nat, draws: nat -> Draw, s: Loop)
    ensures var r := Play(c, p, spins, draws, s);
            && EndedRightly(spins, draws, r) && s.rounds <= r.loop.rounds
            && forall k :: |s.rounds| <= k < |r.loop.rounds| ==>
                 draws(k).won && r.loop.rounds[k].granted == draws(k).added
    decreases spins - s.spun + MAX_RETRIES - s.retries, IsLucky(s)
  {
    hide PaidPrice, SafeSubtract, AddLucky, NextNumber, Held;
    if !Going(s, spins) || !draws(|s.rounds|).won {
    } else {
      var d := draws(|s.rounds|);
      var t := Next(c, p, s, d);
      assert |t.rounds| == |s.rounds| + 1 && t.rounds[|s.rounds|].granted == d.added;
      if !(spins == 1 && IsLucky(s) && d.added) {
        PlayEnds(c, p, spins, draws, t);
      }
    }
  }

  lemma PlayTurn(c: Capsule, p: Prices, spins: nat, draws: nat -> Draw, s: Loop)
    requires Going(s, spins)
    ensures Play(c, p, spins, draws, s)
         == var d, t := draws(|s.rounds|), Next(c, p, s, draws(|s.rounds|));
            if !d.won then Played(s.(account := Chosen(s)), NoItem)
            else if spins == 1 && IsLucky(s) && d.added then Played(t, SingleLucky)
            else Play(c, p, spins, draws, t)
  {
  }

  lemma PlayStops(c: Capsule, p: Prices, spins: nat, draws: nat -> Draw, s: Loop)
    requires !Going(s, spins)
    ensures Play(c, p, spins, draws, s) == Played(s, Finished)
  {
  }

  class Session {
    var account: Account
    var sent: seq<Reply>

    method SetCoins(n: nat) returns (ok: bool)
      modifies this`account
      ensures ok == (n <= 0x7F) && account == if ok then old(account).(coins := n) else old(account)
    {
      if n > 0x7F {
        return false;
      }
      account := account.(coins := n);
      return true;
    }

    method SetRockTotens(n: nat) returns (ok: bool)
      modifies this`account
      ensures ok == (n <= 0x3FFF_FFFF) && account == if ok then old(account).(rockTotens := n) else old(account)
    {
      if n > 0x3FFF_FFFF {
        return false;
      }
      account := account.(rockTotens := n);
      return true;
    }

    method SetMicroPoints(n: nat) returns (ok: bool)
      modifies this`account
      ensures ok == (n <= 0x7FFF_FFFF) && account == if ok then old(account).(microPoints := n) else old(account)
    {
      if n > 0x7FFF_FFFF {
        return false;
      }
      account := account.(microPoints := n);
      return true;
    }

    /** The setters never refuse: what is left is never more than what was there. */
    method RemoveCurrency(c: Capsule, p: Prices, sale: bool)
      requires account.Valid()
      modifies this`account
      ensures account.Valid()
      ensures account == WithBalance(old(account), c.kind,
                                     SafeSubtract(Balance(old(account), c.kind), PaidPrice(c, p, sale)))
      ensures c.kind == 0 ==> account == old(account).(coins := SafeSubtract(old(account).coins, c.price))
      ensures c.kind == 1 ==> var price := if sale then p.rockTotens else c.price;
                account == old(account).(rockTotens := SafeSubtract(old(account).rockTotens, price))
      ensures c.kind >= 2 ==> var price := if sale then p.microPoints else c.price;
                account == old(account).(microPoints := SafeSubtract(old(account).microPoints, price))
    {
      var toRemove, ok := c.price, true;
      if c.kind == 0 {
        ok := SetCoins(SafeSubtract(account.coins, toRemove));
      } else if c.kind == 1 {
        if sale {
          toRemove := p.rockTotens;
        }
        ok := SetRockTotens(SafeSubtract(account.rockTotens, toRemove));
      } else {
        if sale {
          toRemove := p.microPoints;
        }
        ok := SetMicroPoints(SafeSubtract(account.microPoints, toRemove));
      }
      assert ok;
    }

    method HandleCapsuleSpin(option: nat, capsule: Option<Capsule>, p: Prices, saleNow: bool, hasSpace: bool,
                             draws: nat -> Draw)
      requires account.Valid()
      modifies this
      ensures account.Valid()
      ensures capsule.None? ==> account == old(account) && sent == old(sent) + [SpinFail]
      ensures capsule.Some? && NotEnough(old(account), capsule.value, p, saleNow, option) ==>
                account == old(account) && sent == old(sent) + [NotEnoughCurrency(capsule.value.kind)]
      ensures capsule.Some? && !NotEnough(old(account), capsule.value, p, saleNow, option) ==>
                if !hasSpace then account == old(account) && sent == old(sent) + [InventoryFull]
                else if option > 20 then account == old(account) && sent == old(sent)
                else var r := Play(capsule.value, p, option, draws, Start(old(account)));
                     && account == r.loop.account
                     && sent == old(sent) + Granted(r.loop.rounds) + if r.ending.NoItem? then [SpinFail] else []
    {
      if capsule.None? {
        sent := sent + [SpinFail];
        return;
      }
      var c := capsule.value;
      var pricePerSpin := c.price;
      if saleNow {
        if c.kind == 1 {
          pricePerSpin := p.rockTotens;
        } else if c.kind == 2 {
          pricePerSpin := p.microPoints;
        }
      }
      var totalPrice := pricePerSpin * option % M32;
      if c.kind <= 2 && Balance(account, c.kind) < totalPrice {
        sent := sent + [NotEnoughCurrency(c.kind)];
        return;
      }
      if !hasSpace {
        sent := sent + [InventoryFull];
        return;
      }
      if option > MAX_SPINS {
        return;
      }
      Spin(option, c, p, draws);
    }

    method Spin(option: nat, c: Capsule, p: Prices, draws: nat -> Draw)
      requires account.Valid()
      modifies this
      ensures account.Valid()
      ensures var r := Play(c, p, option, draws, Start(old(account)));
              && account == r.loop.account
              && sent == old(sent) + Granted(r.loop.rounds) + if r.ending.NoItem? then [SpinFail] else []
    {
      hide Play, Granted, TotalPrice, PaidPrice, WithBalance, Balance, SafeSubtract;
      var i, retryCount, lastMission := 0, 0, Normal;
      var rounds: seq<Round> := [];
      ghost var result := Play(c, p, option, draws, Start(account));
      NoneGranted();
      while i < option && retryCount < MAX_RETRIES
        invariant i <= option && retryCount <= MAX_RETRIES && account.Valid()
        invariant lastMission == Lucky ==> account.lucky == 0
        invariant Play(c, p, option, draws, Loop(account, i, retryCount, rounds)) == result
        invariant sent == old(sent) + Granted(rounds)
        decreases option - i + MAX_RETRIES - retryCount, account.lucky >= MAX_LUCKY
      {
        ghost var s := Loop(account, i, retryCount, rounds);
        PlayTurn(c, p, option, draws, s);
        var mission := Normal;
        if account.lucky >= MAX_LUCKY {
          account := account.(lucky := 0);
          mission := Lucky;
        }
        if lastMission == Lucky && mission == Lucky {
          mission := Normal;
        }
        lastMission := mission;
        var d := draws(|rounds|);
        if !d.won {
          sent := sent + [SpinFail];
          return;
        }
        var number := (account.itemNumber + 1) % ITEM_NUMBERS;
        rounds := rounds + [Round(mission, number, d.added)];
        GrantedAppend(s.rounds, Round(mission, number, d.added));
        if !d.added {
          retryCount := retryCount + 1;
          continue;
        }
        if number > account.itemNumber {
          account := account.(itemNumber := number);
        }
        sent := sent + [Spun(mission, number)];
        if mission != Lucky {
          RemoveCurrency(c, p, d.sale);
          account := account.(lucky := AddLucky(account.lucky, c.luckyPoints));
          i := i + 1;
        }
        if option == 1 && mission == Lucky {
          return;
        }
      }
      PlayStops(c, p, option, draws, Loop(account, i, retryCount, rounds));
    }
  }

  lemma NoneGranted()
    ensures Granted([]) == []
  {
  }
}
