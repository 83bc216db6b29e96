/** The like button: a stored count and whether this visitor has liked. */
module Likes {

  datatype LikeState = LikeState(count: int, liked: bool)

  /** The source's `Math.max(0, n)`. */
  function Clamp(n: int): (r: nat)
    ensures r >= n && (n >= 0 ==> r == n)
  {
    if n < 0 then 0 else n
  }

  /** A click on the button. Liking adds one to the count (a negative stored
      count is first clamped to zero); unliking takes one off, never going
      below zero. */
  function Click(s: LikeState): (r: LikeState)
    ensures r.liked == !s.liked
    ensures r.count >= 0
    ensures r.liked ==> r.count >= 1 && r.count == Clamp(s.count) + 1
    ensures !r.liked ==> r.count == if s.count >= 1 then s.count - 1 else 0
  {
    if !s.liked then LikeState(Clamp(s.count) + 1, true)
    else LikeState(Clamp(s.count - 1), false)
  }

  /** Like then unlike gives back the count the visitor started from. */
  lemma LikeThenUnlike(s: LikeState)
    requires !s.liked && s.count >= 0
    ensures Click(Click(s)) == s
  {
  }

  /** Unlike then like restores the count unless the count was already 0,
      where the clamp loses the difference and the count ends at 1. */
  lemma UnlikeThenLike(s: LikeState)
    requires s.liked && s.count >= 0
    ensures s.count >= 1 <==> Click(Click(s)) == s
    ensures s.count == 0 ==> Click(Click(s)) == LikeState(1, true)
  {
  }
}
