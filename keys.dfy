/**
 * The direction-acceptance rule of `handle_keys`: an arrow key buffers its
 * direction as the snake's pending direction unless it asks for the reverse
 * of the direction the snake is currently moving in.
 */
module Keys {
  import opened Options
  import opened Geometry

  /** The key of a KEYDOWN event; any non-arrow key is `OtherKey`. */
  datatype Key = ArrowUp | ArrowDown | ArrowLeft | ArrowRight | OtherKey

  function KeyDirection(k: Key): Direction
    requires k != OtherKey
  {
    match k
    case ArrowUp => Up
    case ArrowDown => Down
    case ArrowLeft => Left
    case ArrowRight => Right
  }

  /**
   * The pending direction after one key press, by the source's chain of
   * `elif` tests on the key and the current direction. The contract restates
   * the chain as the single rule "accept unless it is the reverse".
   */
  function Requested(current: Direction, pending: Option<Direction>, k: Key): (r: Option<Direction>)
    ensures k == OtherKey ==> r == pending
    ensures k != OtherKey && KeyDirection(k) != Opposite(current) ==> r == Some(KeyDirection(k))
    ensures k != OtherKey && KeyDirection(k) == Opposite(current) ==> r == pending
  {
    if k == ArrowUp && current != Down then Some(Up)
    else if k == ArrowDown && current != Up then Some(Down)
    else if k == ArrowLeft && current != Right then Some(Left)
    else if k == ArrowRight && current != Left then Some(Right)
    else pending
  }

  /** The pending direction after the key presses of one frame, in order. */
  function AfterKeys(current: Direction, pending: Option<Direction>, keys: seq<Key>): Option<Direction>
  {
    if keys == [] then pending
    else Requested(current, AfterKeys(current, pending, keys[..|keys| - 1]), keys[|keys| - 1])
  }

  /** A pending direction is never the reverse of the current one. */
  predicate NotReverse(current: Direction, pending: Option<Direction>)
  {
    pending.Some? ==> pending.value != Opposite(current)
  }

  /** No sequence of key presses buffers the reverse of the current direction. */
  lemma {:induction false} AfterKeysNeverReverses(current: Direction, pending: Option<Direction>, keys: seq<Key>)
    requires NotReverse(current, pending)
    ensures NotReverse(current, AfterKeys(current, pending, keys))
  {
    if keys != [] {
      AfterKeysNeverReverses(current, pending, keys[..|keys| - 1]);
    }
  }

  /**
   * The pending direction after a frame is the old one, or the direction of
   * the last arrow key of the frame that was not the reverse; keys after it
   * were all rejected or not arrows.
   */
  lemma {:induction false} AfterKeysIsLastAccepted(current: Direction, pending: Option<Direction>, keys: seq<Key>)
    ensures var r := AfterKeys(current, pending, keys);
      (r == pending && forall i :: 0 <= i < |keys| ==> keys[i] == OtherKey || KeyDirection(keys[i]) == Opposite(current))
      || (exists i :: 0 <= i < |keys| && keys[i] != OtherKey && r == Some(KeyDirection(keys[i]))
            && KeyDirection(keys[i]) != Opposite(current)
            && forall j :: i < j < |keys| ==> keys[j] == OtherKey || KeyDirection(keys[j]) == Opposite(current))
  {
    if keys != [] {
      var n := |keys| - 1;
      var init := keys[..n];
      AfterKeysIsLastAccepted(current, pending, init);
      var prev := AfterKeys(current, pending, init);
      if keys[n] != OtherKey && KeyDirection(keys[n]) != Opposite(current) {
        assert AfterKeys(current, pending, keys) == Some(KeyDirection(keys[n]));
      } else {
        assert AfterKeys(current, pending, keys) == prev;
        if prev == pending && forall i :: 0 <= i < n ==> init[i] == OtherKey || KeyDirection(init[i]) == Opposite(current) {
          assert forall i :: 0 <= i < |keys| ==> keys[i] == OtherKey || KeyDirection(keys[i]) == Opposite(current) by {
            forall i | 0 <= i < |keys| ensures keys[i] == OtherKey || KeyDirection(keys[i]) == Opposite(current) {
              if i < n { assert keys[i] == init[i]; }
            }
          }
        } else {
          var i :| 0 <= i < n && init[i] != OtherKey && prev == Some(KeyDirection(init[i]))
            && KeyDirection(init[i]) != Opposite(current)
            && forall j :: i < j < n ==> init[j] == OtherKey || KeyDirection(init[j]) == Opposite(current);
          assert keys[i] == init[i];
          forall j | i < j < |keys| ensures keys[j] == OtherKey || KeyDirection(keys[j]) == Opposite(current) {
            if j < n { assert keys[j] == init[j]; }
          }
        }
      }
    }
  }
}
