/** The editor's data: a topic, an ordered list of cue/notes pairs and a
    summary, and the list edits the per-pair buttons perform. Each pair's
    buttons act on the pair at one position of the list. */
module Notes {

  /** One Cornell-notes row: the cue (question), the notes and the star flag. */
  datatype Pair = Pair(cue: string, notes: string, isImportant: bool)

  /** The editor's state, read off the topic input, the summary text area and
      the pair list in document order. */
  datatype Doc = Doc(topic: string, summary: string, pairs: seq<Pair>)

  /** `createNotePair()` with its default arguments: `''`, `''`, `false`. */
  const EmptyPair := Pair("", "", false)

  /** The move-up button: `insertBefore(pair, previousElementSibling)` when
      there is a previous sibling, nothing otherwise. */
  function MovedUp(ps: seq<Pair>, i: nat): (r: seq<Pair>)
    requires i < |ps|
    ensures |r| == |ps| && multiset(r) == multiset(ps)
    ensures i == 0 ==> r == ps
    ensures i > 0 ==> r[i - 1] == ps[i] && r[i] == ps[i - 1]
    ensures forall k :: 0 <= k < |ps| && k != i && k != i - 1 ==> r[k] == ps[k]
  {
    if i == 0 then ps
    else
      assert ps == ps[..i - 1] + [ps[i - 1], ps[i]] + ps[i + 1..];
      ps[..i - 1] + [ps[i], ps[i - 1]] + ps[i + 1..]
  }

  /** The move-down button: `insertBefore(nextElementSibling, pair)` when
      there is a next sibling, nothing otherwise. */
  function MovedDown(ps: seq<Pair>, i: nat): (r: seq<Pair>)
    requires i < |ps|
    ensures |r| == |ps| && multiset(r) == multiset(ps)
    ensures i == |ps| - 1 ==> r == ps
    ensures i < |ps| - 1 ==> r[i] == ps[i + 1] && r[i + 1] == ps[i]
    ensures forall k :: 0 <= k < |ps| && k != i && k != i + 1 ==> r[k] == ps[k]
  {
    if i == |ps| - 1 then ps
    else
      assert ps == ps[..i] + [ps[i], ps[i + 1]] + ps[i + 2..];
      ps[..i] + [ps[i + 1], ps[i]] + ps[i + 2..]
  }

  /** Moving a pair up and then moving it down again restores the list. */
  lemma {:induction false} MoveDownUndoesMoveUp(ps: seq<Pair>, i: nat)
    requires 0 < i < |ps|
    ensures MovedDown(MovedUp(ps, i), i - 1) == ps
  {
    var up := MovedUp(ps, i);
    var back := MovedDown(up, i - 1);
    forall k | 0 <= k < |ps| ensures back[k] == ps[k] {
      if k == i - 1 {
        assert back[k] == up[i];
      } else if k == i {
        assert back[k] == up[i - 1];
      } else {
        assert back[k] == up[k];
      }
    }
  }

  /** Moving a pair down and then moving it up again restores the list. */
  lemma {:induction false} MoveUpUndoesMoveDown(ps: seq<Pair>, i: nat)
    requires i + 1 < |ps|
    ensures MovedUp(MovedDown(ps, i), i + 1) == ps
  {
    var down := MovedDown(ps, i);
    var back := MovedUp(down, i + 1);
    forall k | 0 <= k < |ps| ensures back[k] == ps[k] {
      if k == i {
        assert back[k] == down[i + 1];
      } else if k == i + 1 {
        assert back[k] == down[i];
      } else {
        assert back[k] == down[k];
      }
    }
  }

  /** The remove button: `pair.remove()`. */
  function Removed(ps: seq<Pair>, i: nat): (r: seq<Pair>)
    requires i < |ps|
    ensures |r| == |ps| - 1
    ensures forall k :: 0 <= k < i ==> r[k] == ps[k]
    ensures forall k :: i <= k < |r| ==> r[k] == ps[k + 1]
    ensures multiset(r) + multiset{ps[i]} == multiset(ps)
  {
    assert ps == ps[..i] + [ps[i]] + ps[i + 1..];
    ps[..i] + ps[i + 1..]
  }

  /** The star button: toggles the pair's `is-important` class. */
  function Toggled(ps: seq<Pair>, i: nat): (r: seq<Pair>)
    requires i < |ps|
    ensures |r| == |ps|
    ensures r[i].cue == ps[i].cue && r[i].notes == ps[i].notes
    ensures r[i].isImportant == !ps[i].isImportant
    ensures forall k :: 0 <= k < |ps| && k != i ==> r[k] == ps[k]
  {
    ps[i := ps[i].(isImportant := !ps[i].isImportant)]
  }

  /** Starring twice is the identity. */
  lemma {:induction false} ToggleTwice(ps: seq<Pair>, i: nat)
    requires i < |ps|
    ensures Toggled(Toggled(ps, i), i) == ps
  {
    var twice := Toggled(Toggled(ps, i), i);
    assert twice[i] == ps[i];
    assert forall k :: 0 <= k < |ps| ==> twice[k] == ps[k];
  }
}
