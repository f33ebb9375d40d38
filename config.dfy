/** The constants of configuration.py that the ledger reads: the fee tiers, the
    opening balance of a new account and the name of the funding account. The file
    paths are not part of this model (the two files are held in memory). */
module Config {
  import Util

  /** The upper bound of a tier: a number of cents, or math.inf. */
  datatype Bound = Finite(value: int) | Unbounded

  /** One entry of FRAIS_TRANSACTIONS: inclusive bounds and a percentage. The
      bounds apply to the amount in cents, since that is what the fee computation
      receives, although the comment beside the table speaks of dollars. */
  datatype Tier = Tier(min: int, max: Bound, rate: int)

  /** The test calculer_frais applies: tranche["min"] <= m <= tranche["max"]. */
  predicate Contains(t: Tier, m: int)
  {
    t.min <= m && (t.max.Unbounded? || m <= t.max.value)
  }

  /** FRAIS_TRANSACTIONS. */
  const FeeTiers: seq<Tier> := [
    Tier(0, Finite(100), 5),
    Tier(101, Finite(500), 10),
    Tier(501, Finite(1000), 15),
    Tier(1001, Finite(5000), 20),
    Tier(5001, Unbounded, 25)
  ]

  /** SOLDE_INITIAL: 1000 dollars, in cents. */
  const InitialBalance: int := Util.DollarsToCents(1000)

  /** NOM_UTILISATEUR_ADMIN, the sender of every opening-balance transaction. No
      account record is ever created for it. */
  const AdminName: string := "ift-1004-union"

  lemma InitialBalanceValue()
    ensures InitialBalance == 100000
  {
  }

  /** A table whose first tier starts at lo, in which every later tier starts one
      past the end of the previous one, and whose last tier is unbounded. */
  ghost predicate Contiguous(tiers: seq<Tier>, lo: int)
  {
    && |tiers| > 0
    && tiers[0].min == lo
    && (forall i :: 0 <= i < |tiers| - 1 ==>
          tiers[i].max.Finite? && tiers[i].min <= tiers[i].max.value
          && tiers[i + 1].min == tiers[i].max.value + 1)
    && tiers[|tiers| - 1].max.Unbounded?
  }

  /** The configured table has five tiers, starts at 0, has no gap, ends
      unbounded, and its rates strictly increase: 5, 10, 15, 20, 25. */
  lemma FeeTiersShape()
    ensures |FeeTiers| == 5 && Contiguous(FeeTiers, 0)
    ensures forall i :: 0 <= i < |FeeTiers| - 1 ==> FeeTiers[i].rate < FeeTiers[i + 1].rate
    ensures FeeTiers[0].rate == 5 && FeeTiers[4].rate == 25
  {
  }

  /** An amount below the start of a contiguous table lies in none of its tiers. */
  lemma {:induction false} BelowContiguous(tiers: seq<Tier>, lo: int, m: int)
    requires Contiguous(tiers, lo) && m < lo
    ensures forall j :: 0 <= j < |tiers| ==> !Contains(tiers[j], m)
  {
    if |tiers| > 1 {
      assert Contiguous(tiers[1..], tiers[0].max.value + 1);
      BelowContiguous(tiers[1..], tiers[0].max.value + 1, m);
      forall j | 1 <= j < |tiers| ensures !Contains(tiers[j], m) {
        assert tiers[j] == tiers[1..][j - 1];
      }
    }
  }

  /** A contiguous table partitions the integers from its start on: every such
      amount lies in exactly one tier. */
  lemma {:induction false} ContiguousPartition(tiers: seq<Tier>, lo: int, m: int)
    requires Contiguous(tiers, lo) && lo <= m
    ensures exists i :: 0 <= i < |tiers| && Contains(tiers[i], m)
    ensures forall i, j :: 0 <= i < |tiers| && 0 <= j < |tiers| && Contains(tiers[i], m) && Contains(tiers[j], m) ==> i == j
  {
    if Contains(tiers[0], m) {
      if |tiers| > 1 {
        assert Contiguous(tiers[1..], tiers[0].max.value + 1);
        BelowContiguous(tiers[1..], tiers[0].max.value + 1, m);
        forall j | 1 <= j < |tiers| ensures !Contains(tiers[j], m) {
          assert tiers[j] == tiers[1..][j - 1];
        }
      }
    } else {
      var rest, lo' := tiers[1..], tiers[0].max.value + 1;
      assert Contiguous(rest, lo');
      ContiguousPartition(rest, lo', m);
      var k :| 0 <= k < |rest| && Contains(rest[k], m);
      assert Contains(tiers[k + 1], m);
      forall i, j | 0 <= i < |tiers| && 0 <= j < |tiers| && Contains(tiers[i], m) && Contains(tiers[j], m)
        ensures i == j
      {
        assert i > 0 && j > 0;
        assert rest[i - 1] == tiers[i] && rest[j - 1] == tiers[j];
      }
    }
  }

  /** Every non-negative number of cents lies in exactly one configured tier. */
  lemma FeeTiersPartition(m: int)
    requires m >= 0
    ensures exists i :: 0 <= i < |FeeTiers| && Contains(FeeTiers[i], m)
    ensures forall i, j :: 0 <= i < |FeeTiers| && 0 <= j < |FeeTiers| && Contains(FeeTiers[i], m) && Contains(FeeTiers[j], m) ==> i == j
  {
    FeeTiersShape();
    ContiguousPartition(FeeTiers, 0, m);
  }
}
