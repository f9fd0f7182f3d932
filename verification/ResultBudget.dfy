/** Fitting one result message into the encoded-size budget: shares for the text
    block and the payload fields, then a two-ended cut of each. */
module ResultBudget {
  import opened Requests
  import opened Utf8
  import opened JsonEscape
  import opened ResultTrim
  import opened Doubles
  import opened HeadTail

  // ---- Shares ----------------------------------------------------------------------

  const MAX_SLACK := 32 * 1024

  function Slack(budget: nat): nat {
    if budget / 8 < MAX_SLACK then budget / 8 else MAX_SLACK
  }

  /** Encoded bytes left for the values once the envelope and the slack are paid. */
  function Available(budget: nat, base: nat): nat
    requires base < budget
  {
    if budget - base > Slack(budget) then budget - base - Slack(budget) else budget - base
  }

  /** Fields up to `limit` (none for -1) are kept whole; the others divide `pool`
      in proportion to their encoded lengths, which sum to `bigTotal`. */
  datatype Plan = Plan(textKeep: nat, limit: int, pool: nat, bigTotal: nat)

  function SmallSum(es: seq<nat>, limit: int): nat {
    if es == [] then 0
    else SmallSum(es[..|es| - 1], limit) + if es[|es| - 1] <= limit then es[|es| - 1] else 0
  }

  function BigSum(es: seq<nat>, limit: int): nat {
    if es == [] then 0
    else BigSum(es[..|es| - 1], limit) + if es[|es| - 1] <= limit then 0 else es[|es| - 1]
  }

  function PlanOf(available: nat, textLen: nat, es: seq<nat>): Plan {
    var textKeep := if textLen < available / 4 then textLen else available / 4;
    var limit := (available - textKeep) / 8;
    if textKeep + SmallSum(es, limit) > available then
      Plan(textKeep, -1, available - textKeep, BigSum(es, -1))
    else
      Plan(textKeep, limit, available - textKeep - SmallSum(es, limit), BigSum(es, limit))
  }

  function ExactShare(p: Plan, e: nat): nat {
    if e <= p.limit then e else if p.bigTotal > 0 then p.pool * e / p.bigTotal else 0
  }

  /** The share as the code computes it, with the rounding of doubles. */
  function Share(fl: real -> real, p: Plan, e: nat): nat
    requires Rounds(fl)
  {
    if e <= p.limit then e
    else if p.bigTotal > 0 then
      PortionIsNatural(fl, p.pool, e, p.bigTotal);
      Portion(fl, p.pool, e, p.bigTotal)
    else 0
  }

  function SumOfShares(fl: real -> real, p: Plan, es: seq<nat>): nat
    requires Rounds(fl)
  {
    if es == [] then 0 else SumOfShares(fl, p, es[..|es| - 1]) + Share(fl, p, es[|es| - 1])
  }

  function Total(es: seq<nat>): nat {
    if es == [] then 0 else Total(es[..|es| - 1]) + es[|es| - 1]
  }

  /** Sizes up to 2^51 bytes, which doubles hold exactly.  The budget is at most
      512 MiB. */
  predicate HoldsExactly(available: nat, es: seq<nat>) {
    available < EXACT_LIMIT && Total(es) <= EXACT_LIMIT
  }

  predicate PlanHoldsExactly(p: Plan, e: nat) {
    p.pool < EXACT_LIMIT && e <= EXACT_LIMIT && p.bigTotal <= EXACT_LIMIT
  }

  /** Rounding costs a large field at most one byte, and gives it none, as long as
      the product stays below 2^51 (with a budget of 8 MiB, for values of up to
      256 MiB). */
  lemma ShareIsNear(fl: real -> real, p: Plan, e: nat)
    requires Rounds(fl) && PlanHoldsExactly(p, e) && p.pool * e < EXACT_LIMIT
    ensures ExactShare(p, e) - 1 <= Share(fl, p, e) <= ExactShare(p, e)
  {
    if e > p.limit && p.bigTotal > 0 {
      PortionIsNear(fl, p.pool, e, p.bigTotal, p.pool * e);
    }
  }

  method PlanShares(available: nat, textLen: nat, es: seq<nat>) returns (p: Plan)
    ensures p == PlanOf(available, textLen, es)
  {
    var textKeep := if textLen < available / 4 then textLen else available / 4;
    var limit: int := (available - textKeep) / 8;
    var kept, bigTotal := textKeep, 0;
    assert es[..|es|] == es;
    for i := 0 to |es|
      invariant kept == textKeep + SmallSum(es[..i], limit) && bigTotal == BigSum(es[..i], limit)
    {
      assert es[..i + 1][..i] == es[..i];
      if es[i] <= limit { kept := kept + es[i]; } else { bigTotal := bigTotal + es[i]; }
    }
    if kept > available {
      limit, kept, bigTotal := -1, textKeep, 0;
      for i := 0 to |es|
        invariant bigTotal == BigSum(es[..i], -1)
      {
        assert es[..i + 1][..i] == es[..i];
        bigTotal := bigTotal + es[i];
      }
    }
    p := Plan(textKeep, limit, if available > kept then available - kept else 0, bigTotal);
  }

  /** A part of the pool for `big` out of `total` bytes, but for the error of two
      roundings. */
  predicate FairPart(total: nat, part: nat, pool: nat, big: nat) {
    EXACT_LIMIT * (total * part) <= (EXACT_LIMIT + 1) * (pool * big)
  }

  lemma PartsAdd(total: nat, a: nat, b: nat, pool: nat, u: nat, v: nat)
    requires FairPart(total, a, pool, u) && FairPart(total, b, pool, v)
    ensures FairPart(total, a + b, pool, u + v)
  {
    assert total * (a + b) == total * a + total * b;
    assert pool * (u + v) == pool * u + pool * v;
    SumsScale(EXACT_LIMIT, total * a, total * b, pool * u, pool * v);
  }

  lemma SumsScale(k: nat, a: nat, b: nat, u: nat, v: nat)
    requires k * a <= (k + 1) * u && k * b <= (k + 1) * v
    ensures k * (a + b) <= (k + 1) * (u + v)
  {
  }

  /** A sum of whole numbers that exceeds the pool by less than one part in `k`
      does not exceed it at all. */
  lemma CancelScaled(k: nat, d: nat, sum: nat, pool: nat)
    requires d > 0 && pool < k && k * (d * sum) <= (k + 1) * (pool * d)
    ensures sum <= pool
  {
    assert pool * d < k * d;
    if sum > pool {
      assert d * sum >= d * (pool + 1) == pool * d + d;
      TooLarge(k, d, d * sum, pool * d);
    }
  }

  lemma TooLarge(k: nat, d: nat, x: nat, y: nat)
    requires x >= y + d
    ensures k * x >= k * y + k * d
  {
    assert k * x >= k * (y + d);
  }

  /** What the large fields get, as rounded, is at most the pool and the error of
      two roundings. */
  lemma {:induction false} BigSharesFit(fl: real -> real, p: Plan, es: seq<nat>)
    requires Rounds(fl) && p.bigTotal > 0 && PlanHoldsExactly(p, Total(es))
    ensures SumOfShares(fl, p, es) >= SmallSum(es, p.limit)
    ensures FairPart(p.bigTotal, SumOfShares(fl, p, es) - SmallSum(es, p.limit), p.pool, BigSum(es, p.limit))
  {
    if es != [] {
      var init, e := es[..|es| - 1], es[|es| - 1];
      BigSharesFit(fl, p, init);
      if e > p.limit {
        ShareIsFair(fl, p, e);
        PartsAdd(p.bigTotal, SumOfShares(fl, p, init) - SmallSum(init, p.limit), Share(fl, p, e),
                 p.pool, BigSum(init, p.limit), e);
      }
    }
  }

  lemma ShareIsFair(fl: real -> real, p: Plan, e: nat)
    requires Rounds(fl) && p.bigTotal > 0 && PlanHoldsExactly(p, e) && e > p.limit
    ensures FairPart(p.bigTotal, Share(fl, p, e), p.pool, e)
  {
    PortionIsBelow(fl, p.pool, e, p.bigTotal, p.pool * e, Share(fl, p, e));
  }

  lemma {:induction false} NoBigNoShares(fl: real -> real, p: Plan, es: seq<nat>)
    requires Rounds(fl) && p.bigTotal == 0
    ensures SumOfShares(fl, p, es) == SmallSum(es, p.limit)
  {
    if es != [] { NoBigNoShares(fl, p, es[..|es| - 1]); }
  }

  lemma {:induction false} BigIsPart(es: seq<nat>, limit: int)
    ensures BigSum(es, limit) <= Total(es)
  {
    if es != [] { BigIsPart(es[..|es| - 1], limit); }
  }

  /** The text block and the fields together never get more than what is
      available, whatever the roundings do. */
  lemma SharesFit(fl: real -> real, available: nat, textLen: nat, es: seq<nat>)
    requires Rounds(fl) && HoldsExactly(available, es)
    ensures var p := PlanOf(available, textLen, es);
            p.textKeep + SumOfShares(fl, p, es) <= available
  {
    var p := PlanOf(available, textLen, es);
    if p.limit == -1 { NothingIsSmall(es); }
    if p.bigTotal == 0 {
      NoBigNoShares(fl, p, es);
    } else {
      BigIsPart(es, p.limit);
      BigSharesFit(fl, p, es);
      CancelScaled(EXACT_LIMIT, p.bigTotal, SumOfShares(fl, p, es) - SmallSum(es, p.limit), p.pool);
    }
  }

  lemma {:induction false} NothingIsSmall(es: seq<nat>)
    ensures SmallSum(es, -1) == 0
  {
    if es != [] { NothingIsSmall(es[..|es| - 1]); }
  }

  // ---- What the shares are for -----------------------------------------------------------

  /** The text keeps a quarter of what is available, or all of it if it is shorter. */
  lemma TextGetsAQuarter(available: nat, textLen: nat, es: seq<nat>)
    ensures var p := PlanOf(available, textLen, es);
            && p.textKeep <= textLen && 4 * p.textKeep <= available
            && (p.textKeep == textLen || 4 * (p.textKeep + 1) > available)
  {
  }

  /** A field of at most an eighth of the rest is kept whole, unless such fields alone
      would overrun what is available; then every field has to share. */
  lemma SmallFieldsAreWhole(fl: real -> real, available: nat, textLen: nat, es: seq<nat>, i: nat)
    requires Rounds(fl) && i < |es|
    ensures var p := PlanOf(available, textLen, es);
            var eighth := (available - p.textKeep) / 8;
            && (p.textKeep + SmallSum(es, eighth) <= available && es[i] <= eighth ==> Share(fl, p, es[i]) == es[i])
            && (p.textKeep + SmallSum(es, eighth) > available ==> p.limit < 0 && p.bigTotal == BigSum(es, -1))
            && (es[i] > p.limit && p.bigTotal > 0 ==> Share(fl, p, es[i]) == Portion(fl, p.pool, es[i], p.bigTotal))
  {
  }

  function CountBig(es: seq<nat>, limit: int): nat {
    if es == [] then 0 else CountBig(es[..|es| - 1], limit) + if es[|es| - 1] <= limit then 0 else 1
  }

  /** A part of the pool for `big` out of `total` bytes is short of it by less than
      one byte for each of `m` fields, but for the error of two roundings. */
  predicate AmplePart(total: nat, part: nat, m: nat, pool: nat, big: nat) {
    IsAmple(EXACT_LIMIT, total * (part + m), pool * big)
  }

  predicate IsAmple(k: nat, a: nat, n: nat) {
    k * a + n >= k * n
  }

  lemma AmplePartsAdd(total: nat, a: nat, b: nat, m: nat, pool: nat, u: nat, v: nat)
    requires AmplePart(total, a, m, pool, u) && AmplePart(total, b, 1, pool, v)
    ensures AmplePart(total, a + b, m + 1, pool, u + v)
  {
    assert total * (a + b + (m + 1)) == total * (a + m) + total * (b + 1);
    assert pool * (u + v) == pool * u + pool * v;
    BothAbove(EXACT_LIMIT, total * (a + m), total * (b + 1), pool * u, pool * v);
  }

  lemma BothAbove(k: nat, a: nat, b: nat, u: nat, v: nat)
    requires k * a + u >= k * u && k * b + v >= k * v
    ensures k * (a + b) + (u + v) >= k * (u + v)
  {
  }

  lemma {:induction false} BigSharesAreAmple(fl: real -> real, p: Plan, es: seq<nat>)
    requires Rounds(fl) && p.bigTotal > 0 && PlanHoldsExactly(p, Total(es))
    ensures SumOfShares(fl, p, es) >= SmallSum(es, p.limit)
    ensures AmplePart(p.bigTotal, SumOfShares(fl, p, es) - SmallSum(es, p.limit), CountBig(es, p.limit),
                      p.pool, BigSum(es, p.limit))
  {
    if es != [] {
      var init, e := es[..|es| - 1], es[|es| - 1];
      BigSharesAreAmple(fl, p, init);
      if e > p.limit {
        ShareIsAmple(fl, p, e);
        AmplePartsAdd(p.bigTotal, SumOfShares(fl, p, init) - SmallSum(init, p.limit), Share(fl, p, e),
                      CountBig(init, p.limit), p.pool, BigSum(init, p.limit), e);
      }
    }
  }

  lemma ShareIsAmple(fl: real -> real, p: Plan, e: nat)
    requires Rounds(fl) && p.bigTotal > 0 && PlanHoldsExactly(p, e) && e > p.limit
    ensures AmplePart(p.bigTotal, Share(fl, p, e), 1, p.pool, e)
  {
    var up := Share(fl, p, e) + 1;
    PortionIsAbove(fl, p.pool, e, p.bigTotal, p.pool * e, up, p.bigTotal * up);
  }

  lemma CancelAmple(k: nat, d: nat, sum: nat, pool: nat)
    requires d > 0 && pool < k && k * (d * sum) + pool * d >= k * (pool * d)
    ensures sum >= pool
  {
    if sum < pool {
      OneLess(d, sum, pool);
      FewerTimes(pool, k, d);
      FallsShort(k, d, d * sum, pool * d);
    }
  }

  lemma OneLess(d: nat, sum: nat, pool: nat)
    requires sum < pool
    ensures d * sum + d <= pool * d
  {
    assert d * sum + d == d * (sum + 1) <= d * pool;
  }

  lemma FewerTimes(pool: nat, k: nat, d: nat)
    requires pool < k && d > 0
    ensures pool * d < k * d
  {
  }

  lemma FallsShort(k: nat, d: nat, x: nat, y: nat)
    requires x + d <= y < k * d
    ensures k * x + y < k * y
  {
    TooLarge(k, d, y, x);
  }

  /** When some field has to be cut, the shares use up what is available, but for one
      byte at most per field that is cut. */
  lemma SharesUseTheBudget(fl: real -> real, available: nat, textLen: nat, es: seq<nat>)
    requires Rounds(fl) && HoldsExactly(available, es) && PlanOf(available, textLen, es).bigTotal > 0
    ensures var p := PlanOf(available, textLen, es);
            p.textKeep + SumOfShares(fl, p, es) + CountBig(es, p.limit) >= available
  {
    var p := PlanOf(available, textLen, es);
    if p.limit == -1 { NothingIsSmall(es); }
    BigIsPart(es, p.limit);
    BigSharesAreAmple(fl, p, es);
    CancelAmple(EXACT_LIMIT, p.bigTotal,
                SumOfShares(fl, p, es) - SmallSum(es, p.limit) + CountBig(es, p.limit), p.pool);
  }

  /** The slack is an eighth of the budget, and 32 KiB at most. */
  lemma SlackIsAnEighth(budget: nat)
    ensures Slack(budget) <= 32768 && 8 * Slack(budget) <= budget
    ensures Slack(budget) == 32768 || 8 * (Slack(budget) + 1) > budget
  {
  }

  /** Envelope, slack and what is available for the values make up the budget; if the
      envelope leaves no more than the slack, the values get all of that. */
  lemma AvailableIsTheRest(budget: nat, base: nat)
    requires base < budget
    ensures base + Slack(budget) < budget ==> base + Available(budget, base) + Slack(budget) == budget
    ensures base + Slack(budget) >= budget ==> base + Available(budget, base) == budget
  {
  }

  // ---- The whole step ------------------------------------------------------------------

  datatype Outcome = Unchanged | EnvelopeTooLarge | Cut(text: Option<Text>, fields: seq<Text>)

  function EncodedLen(s: seq<Byte>): nat { |Escape(s)| }

  function Lengths(fields: seq<seq<Byte>>): (es: seq<nat>)
    ensures |es| == |fields| && forall i | 0 <= i < |es| :: es[i] == EncodedLen(fields[i])
  {
    if fields == [] then [] else Lengths(fields[..|fields| - 1]) + [EncodedLen(fields[|fields| - 1])]
  }

  function TextLen(text: Option<seq<Byte>>): nat {
    if text.Some? then EncodedLen(text.value) else 0
  }

  function Candidates(text: Option<seq<Byte>>, fields: seq<seq<Byte>>): nat {
    |fields| + if text.Some? then 1 else 0
  }

  /** Length of the message, whose envelope with every value empty is `base`. */
  function MessageSize(base: nat, text: Option<seq<Byte>>, fields: seq<seq<Byte>>): nat {
    base + TextLen(text) + Total(Lengths(fields))
  }

  /** `out` is what the two-ended cut makes of `raw`. */
  ghost predicate IsTrim(raw: seq<Byte>, share: nat, out: Text) {
    && (!Exceeds(raw, share) ==> out == Whole(raw))
    && (Exceeds(raw, share) ==> exists h: nat, t: nat, a: nat, b: nat :: IsTwoEnded(raw, share, h, t, a, b, out))
  }

  method Trim(raw: seq<Byte>, share: nat) returns (out: Text)
    ensures IsTrim(raw, share, out)
  {
    ghost var h, t, a, b;
    out, h, t, a, b := TrimToEncodedBudget(raw, share);
  }

  ghost predicate IsTrimOfAll(fl: real -> real, p: Plan, fields: seq<seq<Byte>>, outs: seq<Text>)
    requires Rounds(fl)
  {
    && |outs| == |fields|
    && forall i | 0 <= i < |fields| :: IsTrim(fields[i], Share(fl, p, EncodedLen(fields[i])), outs[i])
  }

  ghost function PlanFor(budget: nat, base: nat, text: Option<seq<Byte>>, fields: seq<seq<Byte>>): Plan
    requires base < budget
  {
    PlanOf(Available(budget, base), TextLen(text), Lengths(fields))
  }

  /** Every value is cut to its share. */
  ghost predicate IsCut(fl: real -> real, budget: nat, base: nat, text: Option<seq<Byte>>, fields: seq<seq<Byte>>,
                        newText: Option<Text>, outs: seq<Text>)
    requires Rounds(fl) && base < budget
  {
    var p := PlanFor(budget, base, text, fields);
    && newText.Some? == text.Some?
    && (text.Some? ==> IsTrim(text.value, p.textKeep, newText.value))
    && IsTrimOfAll(fl, p, fields, outs)
  }

  /** The size estimate that decides whether anything is cut. */
  predicate FitsByEstimate(budget: nat, base: nat, text: Option<seq<Byte>>, fields: seq<seq<Byte>>) {
    MessageSize(base, text, fields) - 2 * Candidates(text, fields) <= budget
  }

  method MeasureAll(fields: seq<seq<Byte>>) returns (es: seq<nat>, payload: nat)
    ensures es == Lengths(fields) && payload == Total(es)
  {
    es, payload := [], 0;
    for i := 0 to |fields|
      invariant es == Lengths(fields[..i]) && payload == Total(es)
    {
      var e := EscapedLen(fields[i]);
      assert fields[..i + 1][..i] == fields[..i];
      assert (es + [e])[..|es|] == es;
      es, payload := es + [e], payload + e;
    }
    assert fields[..|fields|] == fields;
  }

  /** A message is let through unchanged up to two bytes per candidate over its
      budget: the envelope already counts the quotes that the estimate takes off. */
  method EnforceBudget(fl: real -> real, budget: nat, base: nat, text: Option<seq<Byte>>, fields: seq<seq<Byte>>)
    returns (r: Outcome)
    requires Rounds(fl)
    requires base >= 2 * Candidates(text, fields) // the quotes of every empty value
    ensures r.Unchanged? <==>
              || budget == 0 || Candidates(text, fields) == 0
              || FitsByEstimate(budget, base, text, fields)
    ensures r.EnvelopeTooLarge? ==> base >= budget
    ensures r.Cut? ==> base < budget && IsCut(fl, budget, base, text, fields, r.text, r.fields)
  {
    if budget == 0 { return Unchanged; }
    var n := Candidates(text, fields);
    if n == 0 { return Unchanged; }
    var textLen := 0;
    if text.Some? { textLen := EscapedLen(text.value); }
    var es, payload := MeasureAll(fields);
    if base + textLen + payload - 2 * n <= budget { return Unchanged; }
    if base >= budget { return EnvelopeTooLarge; }
    var p := PlanShares(Available(budget, base), textLen, es);
    var newText := None;
    if text.Some? {
      var t := Trim(text.value, p.textKeep);
      newText := Some(t);
    }
    var newFields := TrimAll(fl, p, fields);
    r := Cut(newText, newFields);
  }

  method TrimAll(fl: real -> real, p: Plan, fields: seq<seq<Byte>>) returns (outs: seq<Text>)
    requires Rounds(fl)
    ensures IsTrimOfAll(fl, p, fields, outs)
  {
    outs := [];
    for i := 0 to |fields|
      invariant IsTrimOfAll(fl, p, fields[..i], outs)
    {
      var e := EscapedLen(fields[i]);
      assert e == EncodedLen(fields[i]);
      var out := Trim(fields[i], Share(fl, p, e));
      OneMoreTrimmed(fl, p, fields, i, outs, out);
      outs := outs + [out];
    }
    assert fields[..|fields|] == fields;
  }

  lemma OneMoreTrimmed(fl: real -> real, p: Plan, fields: seq<seq<Byte>>, i: nat, outs: seq<Text>, out: Text)
    requires Rounds(fl) && i < |fields| && IsTrimOfAll(fl, p, fields[..i], outs)
    requires IsTrim(fields[i], Share(fl, p, EncodedLen(fields[i])), out)
    ensures IsTrimOfAll(fl, p, fields[..i + 1], outs + [out])
  {
    forall j | 0 <= j < i + 1
      ensures IsTrim(fields[..i + 1][j], Share(fl, p, EncodedLen(fields[..i + 1][j])), (outs + [out])[j])
    {
      if j < i { assert fields[..i][j] == fields[..i + 1][j]; }
    }
  }

  // ---- What is sent fits ------------------------------------------------------------------

  /** Encoded length of what is kept of a value; the marker is paid from the slack. */
  function KeptLen(t: Text): nat {
    match t
    case Whole(s) => EncodedLen(s)
    case BothEnds(prefix, _, _, suffix) => EncodedLen(prefix) + EncodedLen(suffix)
  }

  lemma SliceLen(s: seq<Byte>, i: nat, j: nat)
    requires i <= j <= |s|
    ensures EncodedLen(s[i..j]) == Cost(s, i, j)
  {
    CostIsEscapedLength(s, i, j);
  }

  lemma EndsLen(s: seq<Byte>, a: nat, b: nat)
    requires a <= b <= |s|
    ensures EncodedLen(s) == Cost(s, 0, |s|)
    ensures EncodedLen(s[..a]) == Cost(s, 0, a) && EncodedLen(s[b..]) == Cost(s, b, |s|)
  {
    SliceLen(s, 0, |s|);
    SliceLen(s, 0, a);
    SliceLen(s, b, |s|);
    assert s[0..|s|] == s && s[0..a] == s[..a] && s[b..|s|] == s[b..];
  }

  /** A value stays within its share exactly when it is not a nonempty value with
      a share of 0, which means "do not trim" to the cut. */
  lemma KeptWithinShareIff(raw: seq<Byte>, share: nat, out: Text)
    requires IsTrim(raw, share, out)
    ensures KeptLen(out) <= share <==> share > 0 || raw == []
    ensures EncodedLen(raw) <= share ==> out == Whole(raw)
  {
    EndsLen(raw, 0, 0);
    if Exceeds(raw, share) { CutKeepsToShare(raw, share, out); }
  }

  lemma CutKeepsToShare(raw: seq<Byte>, share: nat, out: Text)
    requires IsTrim(raw, share, out) && Exceeds(raw, share)
    ensures KeptLen(out) <= share
  {
    var h: nat, t: nat, a: nat, b: nat :| IsTwoEnded(raw, share, h, t, a, b, out);
    KeptFits(raw, share, h, t, a, b);
    EndsLen(raw, a, b);
  }

  /** No nonempty value gets nothing. */
  ghost predicate EveryShareIsPositive(fl: real -> real, p: Plan, textLen: nat, es: seq<nat>)
    requires Rounds(fl)
  {
    && (textLen > 0 ==> p.textKeep > 0)
    && forall i | 0 <= i < |es| && es[i] > 0 :: Share(fl, p, es[i]) > 0
  }

  ghost predicate SharesServe(fl: real -> real, budget: nat, base: nat, text: Option<seq<Byte>>, fields: seq<seq<Byte>>)
    requires Rounds(fl) && base < budget
  {
    var p := PlanFor(budget, base, text, fields);
    EveryShareIsPositive(fl, p, TextLen(text), Lengths(fields))
  }

  /** In whole numbers: two bytes of exact share survive any rounding. */
  lemma TwoIsEnough(fl: real -> real, available: nat, textLen: nat, es: seq<nat>)
    requires Rounds(fl) && HoldsExactly(available, es) && (textLen > 0 ==> available >= 4)
    requires var p := PlanOf(available, textLen, es);
             forall i | 0 <= i < |es| && es[i] > p.limit :: ExactShare(p, es[i]) >= 2
    ensures EveryShareIsPositive(fl, PlanOf(available, textLen, es), textLen, es)
  {
    var p := PlanOf(available, textLen, es);
    BigIsPart(es, p.limit);
    forall i | 0 <= i < |es| && es[i] > 0 ensures Share(fl, p, es[i]) > 0 {
      if es[i] > p.limit {
        MemberIsPart(es, i);
        QuotientIsSmall(p.pool * es[i], p.bigTotal);
        PortionIsPositive(fl, p.pool, es[i], p.bigTotal, p.pool * es[i]);
      }
    }
  }

  lemma {:induction false} MemberIsPart(es: seq<nat>, i: nat)
    requires i < |es|
    ensures es[i] <= Total(es)
  {
    if i < |es| - 1 { MemberIsPart(es[..|es| - 1], i); }
  }

  function KeptTotal(outs: seq<Text>): nat {
    if outs == [] then 0 else KeptTotal(outs[..|outs| - 1]) + KeptLen(outs[|outs| - 1])
  }

  lemma {:induction false} KeptFieldsFit(fl: real -> real, p: Plan, fields: seq<seq<Byte>>, outs: seq<Text>)
    requires Rounds(fl) && IsTrimOfAll(fl, p, fields, outs)
    requires forall i | 0 <= i < |fields| && EncodedLen(fields[i]) > 0 :: Share(fl, p, EncodedLen(fields[i])) > 0
    ensures KeptTotal(outs) <= SumOfShares(fl, p, Lengths(fields))
  {
    if fields != [] {
      var n := |fields| - 1;
      KeptFieldsFit(fl, p, fields[..n], outs[..n]);
      KeptWithinShareIff(fields[n], Share(fl, p, EncodedLen(fields[n])), outs[n]);
      EndsLen(fields[n], 0, 0);
      assert Lengths(fields)[..n] == Lengths(fields[..n]);
    }
  }

  function KeptText(text: Option<Text>): nat {
    if text.Some? then KeptLen(text.value) else 0
  }

  /** What is sent of the values, on top of the envelope, leaves the whole slack
      free (or fits the bare budget when the envelope leaves less than that). */
  lemma CutMessageFits(fl: real -> real, budget: nat, base: nat, text: Option<seq<Byte>>, fields: seq<seq<Byte>>,
                       newText: Option<Text>, outs: seq<Text>)
    requires Rounds(fl) && base < budget && IsCut(fl, budget, base, text, fields, newText, outs)
    requires SharesServe(fl, budget, base, text, fields) && HoldsExactly(budget, Lengths(fields))
    ensures var kept := KeptText(newText) + KeptTotal(outs);
            && base + kept <= budget
            && (budget - base > Slack(budget) ==> base + kept + Slack(budget) <= budget)
  {
    var es := Lengths(fields);
    var p := PlanOf(Available(budget, base), TextLen(text), es);
    SharesFit(fl, Available(budget, base), TextLen(text), es);
    KeptFieldsFit(fl, p, fields, outs);
    if text.Some? {
      KeptWithinShareIff(text.value, p.textKeep, newText.value);
      EndsLen(text.value, 0, 0);
    }
  }

  /** A share is 0 exactly for the text when fewer than four bytes are available,
      and for a large field whose rounded part is less than 1: then the exact part
      is less than 2, and it is so whenever the exact part is less than 1. */
  lemma ZeroShareIff(fl: real -> real, available: nat, textLen: nat, es: seq<nat>, i: nat)
    requires Rounds(fl) && i < |es| && es[i] > 0 && textLen > 0
    requires HoldsExactly(available, es)
    ensures var p := PlanOf(available, textLen, es);
            && (p.textKeep == 0 <==> available < 4)
            && (Share(fl, p, es[i]) == 0 <==>
                  es[i] > p.limit && p.bigTotal > 0 && Portion(fl, p.pool, es[i], p.bigTotal) < 1)
            && (es[i] > p.limit && p.pool * es[i] < p.bigTotal ==> Share(fl, p, es[i]) == 0)
            && (Share(fl, p, es[i]) == 0 ==> es[i] > p.limit && p.pool * es[i] < 2 * p.bigTotal)
  {
    var p := PlanOf(available, textLen, es);
    if es[i] > p.limit {
      BigMember(es, p.limit, i);
      BigIsPart(es, p.limit);
      MemberIsPart(es, i);
      var n := p.pool * es[i];
      if n < p.bigTotal { PortionIsZero(fl, p.pool, es[i], p.bigTotal, n); }
      if n >= 2 * p.bigTotal { PortionIsPositive(fl, p.pool, es[i], p.bigTotal, n); }
    }
  }

  lemma QuotientIsSmall(x: nat, d: nat)
    requires d > 0
    ensures x / d <= 1 <==> x < 2 * d
  {
  }

  lemma {:induction false} BigMember(es: seq<nat>, limit: int, i: nat)
    requires i < |es| && es[i] > limit && es[i] > 0
    ensures BigSum(es, limit) > 0
  {
    if i < |es| - 1 { BigMember(es[..|es| - 1], limit, i); }
  }

  /** The guard is needed: next to a field of 64 encoded bytes, a field of 9 gets
      a share of 0 and is kept whole, so that it alone overruns the 8 bytes that
      are available. */
  lemma ZeroShareOverruns(fl: real -> real, a: seq<Byte>, b: seq<Byte>, outs: seq<Text>)
    requires Rounds(fl) && EncodedLen(a) == 9 && EncodedLen(b) == 64
    requires IsTrimOfAll(fl, PlanOf(8, 0, [9, 64]), [a, b], outs)
    ensures KeptTotal(outs) > 8
  {
    assert [9, 64][..1] == [9] && [9][..0] == [];
    assert PlanOf(8, 0, [9, 64]) == Plan(0, 1, 8, 73);
    ShareIsNear(fl, Plan(0, 1, 8, 73), 9);
    KeptWhenShareIsZero(a, outs[0]);
    AtLeastFirst(outs);
  }

  /** An exact share of 1 can be rounded away: with 49 bytes available and fields of
      50 and 2400 encoded bytes, 49 * (50 / 2450) comes out just below 1 in
      doubles, and the 50 bytes are kept whole. */
  lemma RoundedShareOverruns(fl: real -> real, a: seq<Byte>, b: seq<Byte>, outs: seq<Text>)
    requires Rounds(fl) && EncodedLen(a) == 50 && EncodedLen(b) == 2400
    requires fl(1.0 / 49.0) == 5882252574524729.0 / 288230376151711744.0
    requires fl(49.0 * (5882252574524729.0 / 288230376151711744.0)) == 9007199254740991.0 / 9007199254740992.0
    requires IsTrimOfAll(fl, PlanOf(49, 0, [50, 2400]), [a, b], outs)
    ensures ExactShare(PlanOf(49, 0, [50, 2400]), 50) == 1 && KeptTotal(outs) > 49
  {
    assert [50, 2400][..1] == [50] && [50][..0] == [];
    assert PlanOf(49, 0, [50, 2400]) == Plan(0, 6, 49, 2450);
    RoundingCanTakeOne(fl, 50, 2450);
    KeptWhenShareIsZero(a, outs[0]);
    AtLeastFirst(outs);
  }

  /** Two quotes per value are taken off twice: a message of 100 bytes passes a
      budget of 99. */
  lemma OverBudgetPasses()
    ensures var text := Some([0x78, 0x78]);
            MessageSize(98, text, []) == 100 && FitsByEstimate(99, 98, text, [])
  {
    var s: seq<Byte> := [0x78, 0x78];
    assert s[1..] == [0x78] && s[1..][1..] == [];
    assert EncodedLen(s) == 2;
  }

  lemma AtLeastFirst(outs: seq<Text>)
    requires |outs| == 2
    ensures KeptTotal(outs) >= KeptLen(outs[0])
  {
    assert outs[..1] == [outs[0]] && [outs[0]][..0] == [];
  }

  lemma KeptWhenShareIsZero(raw: seq<Byte>, out: Text)
    requires IsTrim(raw, 0, out)
    ensures KeptLen(out) == EncodedLen(raw)
  {
  }
}
