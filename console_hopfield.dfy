/** The console front end: the text form of a boolean pattern, and the
    demonstration that trains a four-neuron network on one pattern and
    presents it and a corrupted copy. */
module ConsoleHopfield {
  import opened Grids
  import opened BiPolarUtil
  import opened Hopfield

  /** The letter that stands for one boolean. */
  function Letter(b: bool): char {
    if b then 'T' else 'F'
  }

  /** Every boolean as its letter followed by a comma, left to right. */
  function Entries(b: seq<bool>): string {
    if |b| == 0 then "" else Entries(b[..|b| - 1]) + [Letter(b[|b| - 1]), ',']
  }

  /** The text form of a pattern: its entries between square brackets. Every
      entry, the last one included, is followed by a comma. */
  function Formatted(b: seq<bool>): string {
    "[" + Entries(b) + "]"
  }

  /** Entry i sits at positions 2i and 2i + 1. */
  lemma {:induction false} EntriesAt(b: seq<bool>)
    ensures |Entries(b)| == 2 * |b|
    ensures forall i :: 0 <= i < |b| ==> Entries(b)[2 * i] == Letter(b[i]) && Entries(b)[2 * i + 1] == ','
  {
    if |b| > 0 {
      EntriesAt(b[..|b| - 1]);
    }
  }

  /** So the text form is two brackets around two characters per element,
      and element i can be read back from position 2i + 1. */
  lemma {:induction false} FormattedAt(b: seq<bool>)
    ensures |Formatted(b)| == 2 * |b| + 2
    ensures Formatted(b)[0] == '[' && Formatted(b)[2 * |b| + 1] == ']'
    ensures forall i :: 0 <= i < |b| ==>
              (Formatted(b)[2 * i + 1] == 'T' <==> b[i]) && Formatted(b)[2 * i + 2] == ','
  {
    EntriesAt(b);
    forall i | 0 <= i < |b|
      ensures Formatted(b)[2 * i + 1] == Entries(b)[2 * i]
      ensures Formatted(b)[2 * i + 2] == Entries(b)[2 * i + 1]
    {
    }
  }

  /** Builds the text form of `b` one element at a time. */
  method FormatBoolean(b: array<bool>) returns (s: string)
    ensures s == Formatted(b[..])
  {
    s := "[";
    for i := 0 to b.Length
      invariant s == "[" + Entries(b[..i])
    {
      assert b[..i + 1][..i] == b[..i];
      if b[i] {
        s := s + "T,";
      } else {
        s := s + "F,";
      }
    }
    assert b[..b.Length] == b[..];
    s := s + "]";
  }

  /** The pattern the demonstration trains on. */
  const Trained1: seq<bool> := [true, true, false, false]

  /** The pattern with its second element flipped. */
  const Corrupted: seq<bool> := [true, false, false, false]

  /** The weights after training a fresh four-neuron network on Trained1. */
  const DemoWeights: Grid :=
    [[0.0, 1.0, -1.0, -1.0],
     [1.0, 0.0, -1.0, -1.0],
     [-1.0, -1.0, 0.0, 1.0],
     [-1.0, -1.0, 1.0, 0.0]]

  lemma Dot4(u: seq<real>, v: seq<real>)
    requires |u| == 4 && |v| == 4
    ensures Dot(u, v) == u[0] * v[0] + u[1] * v[1] + u[2] * v[2] + u[3] * v[3]
  {
    assert u[..3][..2] == u[..2] && v[..3][..2] == v[..2];
    assert u[..2][..1] == u[..1] && v[..2][..1] == v[..1];
    assert u[..1][..0] == [] && v[..1][..0] == [];
    assert Dot(u[..1], v[..1]) == u[0] * v[0];
    assert Dot(u[..2], v[..2]) == Dot(u[..1], v[..1]) + u[1] * v[1];
    assert Dot(u[..3], v[..3]) == Dot(u[..2], v[..2]) + u[2] * v[2];
    assert Dot(u, v) == Dot(u[..3], v[..3]) + u[3] * v[3];
  }

  /** One training call on Trained1 gives exactly DemoWeights. */
  lemma {:induction false} DemoTraining()
    ensures Trained(Zero(4, 4), Trained1) == DemoWeights
  {
    forall i, j | 0 <= i < 4 && 0 <= j < 4
      ensures Trained(Zero(4, 4), Trained1)[i][j] == DemoWeights[i][j]
    {
      TrainedAt(Zero(4, 4), Trained1, i, j);
    }
    Extensionality(Trained(Zero(4, 4), Trained1), DemoWeights, 4, 4);
  }

  /** The trained network recalls its pattern unchanged, and restores the
      flipped element of the corrupted copy. */
  lemma {:induction false} DemoRecall()
    ensures Recall(DemoWeights, Trained1) == Trained1
    ensures Recall(DemoWeights, Corrupted) == Trained1
  {
    forall col | 0 <= col < 4
      ensures Recall(DemoWeights, Trained1)[col] == Trained1[col]
      ensures Recall(DemoWeights, Corrupted)[col] == Trained1[col]
    {
      Dot4(BipolarSeq(Trained1), Column(DemoWeights, col));
      Dot4(BipolarSeq(Corrupted), Column(DemoWeights, col));
    }
  }

  /** A fresh four-neuron network trained once on Trained1. */
  method DemoNetwork() returns (network: HopfieldNetwork)
    ensures network.Valid() && network.weightMatrix.rows == 4
    ensures network.Weights() == DemoWeights
  {
    network := new HopfieldNetwork(4);
    var pattern := new bool[] [true, true, false, false];
    assert pattern[..] == Trained1;
    var status := network.Train(pattern);
    DemoTraining();
  }

  /** The answer of `network` to `p`, when the pattern fits the network. */
  method PresentSeq(network: HopfieldNetwork, p: seq<bool>) returns (out: seq<bool>)
    requires network.Valid() && |p| == network.weightMatrix.rows
    ensures out == Recall(network.Weights(), p)
  {
    var pattern := new bool[|p|] (i requires 0 <= i < |p| => p[i]);
    assert pattern[..] == p;
    var answer := network.Present(pattern);
    out := answer.value[..];
  }

  /** The demonstration run on the network object: train on Trained1, then
      present Trained1 and Corrupted. Both answers are Trained1. */
  method Demo() returns (recalled: seq<bool>, restored: seq<bool>)
    ensures recalled == Trained1 && restored == Trained1
  {
    var network := DemoNetwork();
    recalled := PresentSeq(network, Trained1);
    restored := PresentSeq(network, Corrupted);
    DemoRecall();
  }
}
