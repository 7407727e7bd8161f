/** The gesture test of src/handDetection.py, `is_palm_or_fist`: over the 21
    hand landmarks of one hand, a finger is extended when its tip lies above
    (smaller y than) the joint at its base; three or more extended fingers
    make an open palm, fewer a fist. */
module Gestures {
  import opened Wrappers

  /** One entry of `find_position`'s list: (id, x, y) in pixels. */
  datatype Landmark = Landmark(id: int, x: int, y: int)

  datatype Gesture = Palm | Fist

  /** The landmarks a hand must have before it is classified. */
  const HandLandmarks: nat := 21
  /** Fingertips of the index, middle, ring and little finger, and the
      knuckles (MCP joints) at their bases, pair by pair. */
  const Tips: seq<nat> := [8, 12, 16, 20]
  const Mcps: seq<nat> := [5, 9, 13, 17]

  /** Finger f (0 for the index finger .. 3 for the little finger) is
      extended: its tip is strictly higher in the image than its knuckle. */
  predicate Extended(hand: seq<Landmark>, f: nat)
    requires |hand| >= HandLandmarks && f < 4
  {
    hand[Tips[f]].y < hand[Mcps[f]].y
  }

  /** How many of the first k fingers are extended. */
  function CountExtended(hand: seq<Landmark>, k: nat): (n: nat)
    requires |hand| >= HandLandmarks && k <= 4
    ensures n <= k
    ensures n == 0 <==> forall f :: 0 <= f < k ==> !Extended(hand, f)
    ensures n == k <==> forall f :: 0 <= f < k ==> Extended(hand, f)
  {
    if k == 0 then 0
    else CountExtended(hand, k - 1) + (if Extended(hand, k - 1) then 1 else 0)
  }

  /** The classification `is_palm_or_fist` makes of a complete hand: a hand
      with all four fingers extended is a Palm, one with none extended a
      Fist. */
  function Classify(hand: seq<Landmark>): (g: Gesture)
    requires |hand| >= HandLandmarks
    ensures (forall f :: 0 <= f < 4 ==> Extended(hand, f)) ==> g == Palm
    ensures (forall f :: 0 <= f < 4 ==> !Extended(hand, f)) ==> g == Fist
  {
    if CountExtended(hand, 4) >= 3 then Palm else Fist
  }

  /** `is_palm_or_fist(lm_list, threshold)`: None for an empty list or one
      with fewer than 21 landmarks; otherwise count the extended fingers,
      pair by pair, and answer Palm exactly when at least three are. The
      threshold takes no part in the answer. */
  method IsPalmOrFist(hand: seq<Landmark>, threshold: real) returns (r: Option<Gesture>)
    ensures |hand| < HandLandmarks <==> r.None?
    ensures r.Some? ==> r.value == Classify(hand)
  {
    if hand == [] || |hand| < HandLandmarks {
      return None;
    }
    var extendedFingers := 0;
    var f := 0;
    while f < 4
      invariant 0 <= f <= 4
      invariant extendedFingers == CountExtended(hand, f)
    {
      var tip := hand[Tips[f]];
      var mcp := hand[Mcps[f]];
      if tip.y < mcp.y {
        extendedFingers := extendedFingers + 1;
      }
      f := f + 1;
    }
    return Some(if extendedFingers >= 3 then Palm else Fist);
  }

  /** Palm exactly when no two of the four fingers are bent: all four
      extended, or all but one. */
  lemma PalmMeansAtMostOneBent(hand: seq<Landmark>)
    requires |hand| >= HandLandmarks
    ensures Classify(hand) == Palm <==>
      forall f, g :: 0 <= f < g < 4 ==> Extended(hand, f) || Extended(hand, g)
  {
    var e0, e1, e2, e3 := Extended(hand, 0), Extended(hand, 1), Extended(hand, 2), Extended(hand, 3);
    assert CountExtended(hand, 4) ==
      (if e0 then 1 else 0) + (if e1 then 1 else 0) + (if e2 then 1 else 0) + (if e3 then 1 else 0);
    if Classify(hand) == Fist {
      if !e0 && !e1 { assert !(Extended(hand, 0) || Extended(hand, 1)); }
      else if !e0 && !e2 { assert !(Extended(hand, 0) || Extended(hand, 2)); }
      else if !e0 && !e3 { assert !(Extended(hand, 0) || Extended(hand, 3)); }
      else if !e1 && !e2 { assert !(Extended(hand, 1) || Extended(hand, 2)); }
      else if !e1 && !e3 { assert !(Extended(hand, 1) || Extended(hand, 3)); }
      else { assert !(Extended(hand, 2) || Extended(hand, 3)); }
    }
  }

  /** Only the y coordinates of the eight tips and knuckles matter: two
      hands that agree on those are classified alike, whatever their wrist
      (index 0), their other landmarks, landmarks past index 20, ids and x
      coordinates. */
  lemma {:induction false} OnlyTipsAndKnucklesMatter(hand: seq<Landmark>, other: seq<Landmark>)
    requires |hand| >= HandLandmarks && |other| >= HandLandmarks
    requires forall f :: 0 <= f < 4 ==> hand[Tips[f]].y == other[Tips[f]].y && hand[Mcps[f]].y == other[Mcps[f]].y
    ensures Classify(hand) == Classify(other)
  {
    SameCount(hand, other, 4);
  }

  lemma {:induction false} SameCount(hand: seq<Landmark>, other: seq<Landmark>, k: nat)
    requires |hand| >= HandLandmarks && |other| >= HandLandmarks && k <= 4
    requires forall f :: 0 <= f < 4 ==> hand[Tips[f]].y == other[Tips[f]].y && hand[Mcps[f]].y == other[Mcps[f]].y
    ensures CountExtended(hand, k) == CountExtended(other, k)
  {
    if k > 0 {
      SameCount(hand, other, k - 1);
      assert Extended(hand, k - 1) == Extended(other, k - 1);
    }
  }
}
