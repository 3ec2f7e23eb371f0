/**
 * What one background producer does on each tick (src-tauri/src/main.rs:40-44):
 * the drawn number `n` in 1..=10 becomes the key `"Number n"`, which is then
 * incremented. The draw itself is a parameter here.
 */
module Generator {
  import opened Wrappers
  import Decimal
  import opened Counts

  const Prefix: string := "Number "

  /** The key a tick increments: `format!("Number {}", n)`. */
  function Label(n: nat): string {
    Prefix + Decimal.Text(n)
  }

  /** Recovers the drawn number from a key, if the key is a label at all. */
  function ParseLabel(s: string): Option<nat> {
    if |s| >= |Prefix| && s[..|Prefix|] == Prefix then Decimal.Parse(s[|Prefix|..]) else None
  }

  /** A label names the number it was built from. */
  lemma LabelRoundTrip(n: nat)
    ensures ParseLabel(Label(n)) == Some(n)
  {
    var s := Label(n);
    assert s[..|Prefix|] == Prefix && s[|Prefix|..] == Decimal.Text(n);
    Decimal.ParseText(n);
  }

  /** Different draws increment different keys. */
  lemma LabelInjective(a: nat, b: nat)
    ensures Label(a) == Label(b) ==> a == b
  {
    LabelRoundTrip(a);
    LabelRoundTrip(b);
  }

  /** The closed universe of keys a producer can touch. */
  ghost const Universe: set<string> := LabelsUpTo(10)

  /** The labels "Number 1" .. "Number hi". */
  ghost function LabelsUpTo(hi: nat): set<string> {
    set n: nat | 1 <= n <= hi :: Label(n)
  }

  /** That universe is exactly the ten labels "Number 1" .. "Number 10". */
  lemma UniverseIsTheTenLabels()
    ensures Universe == {"Number 1", "Number 2", "Number 3", "Number 4", "Number 5",
                         "Number 6", "Number 7", "Number 8", "Number 9", "Number 10"}
  {
    assert Decimal.Text(10) == "10";
    assert Label(1) == "Number 1" && Label(2) == "Number 2" && Label(3) == "Number 3";
    assert Label(4) == "Number 4" && Label(5) == "Number 5" && Label(6) == "Number 6";
    assert Label(7) == "Number 7" && Label(8) == "Number 8" && Label(9) == "Number 9";
    assert Label(10) == "Number 10";
  }

  lemma {:induction false} LabelsUpToSize(hi: nat)
    ensures |LabelsUpTo(hi)| == hi
  {
    if hi > 0 {
      LabelsUpToSize(hi - 1);
      assert LabelsUpTo(hi) == LabelsUpTo(hi - 1) + {Label(hi)};
      forall n | 1 <= n <= hi - 1 ensures Label(n) != Label(hi) {
        LabelInjective(n, hi);
      }
    }
  }

  /** A producer chooses among ten distinct keys. */
  lemma UniverseSize()
    ensures |Universe| == 10
  {
    LabelsUpToSize(10);
  }

  /** Sum of the counts of the labels "Number 1" .. "Number hi". */
  function LabelSumUpTo(m: Table, hi: nat): nat {
    if hi == 0 then 0 else LabelSumUpTo(m, hi - 1) + Count(m, Label(hi))
  }

  /** Sum of the counts of the ten labels. */
  function LabelSum(m: Table): nat {
    LabelSumUpTo(m, 10)
  }

  lemma {:induction false} BumpLabelSumUpTo(m: Table, k: string, hi: nat)
    ensures LabelSumUpTo(Bump(m, k), hi) ==
            LabelSumUpTo(m, hi) + (if exists n :: 1 <= n <= hi && Label(n) == k then 1 else 0)
  {
    if hi > 0 {
      BumpLabelSumUpTo(m, k, hi - 1);
      if Label(hi) == k {
        forall n | 1 <= n <= hi - 1 ensures Label(n) != k {
          LabelInjective(n, hi);
        }
      }
    }
  }

  /**
   * An increment raises the sum of the ten label counts by one exactly when
   * it increments one of the ten labels, and leaves it alone otherwise.
   */
  lemma BumpLabelSum(m: Table, k: string)
    ensures LabelSum(Bump(m, k)) == LabelSum(m) + (if k in Universe then 1 else 0)
  {
    BumpLabelSumUpTo(m, k, 10);
  }

  /** The labels for a run of draws. */
  function Labels(draws: seq<nat>): (ks: seq<string>)
    ensures |ks| == |draws|
    ensures forall i :: 0 <= i < |draws| ==> ks[i] == Label(draws[i])
  {
    seq(|draws|, i requires 0 <= i < |draws| => Label(draws[i]))
  }

  /**
   * Every tick counts: after any run of draws in 1..=10 the ten label counts
   * have grown by exactly the number of ticks.
   */
  lemma {:induction false} TicksRaiseLabelSum(m: Table, draws: seq<nat>)
    requires forall i :: 0 <= i < |draws| ==> 1 <= draws[i] <= 10
    ensures LabelSum(Replay(m, Labels(draws))) == LabelSum(m) + |draws|
    decreases |draws|
  {
    if draws != [] {
      var ks := Labels(draws);
      assert ks[1..] == Labels(draws[1..]);
      assert ks[0] in Universe;
      BumpLabelSum(m, ks[0]);
      TicksRaiseLabelSum(Bump(m, ks[0]), draws[1..]);
    }
  }
}
