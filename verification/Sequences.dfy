/** Two facts about concatenation, kept out of the loops that need them. */
module Sequences {

  lemma OneTaken<T>(taken: seq<T>, x: T, left: seq<T>)
    ensures (taken + [x]) + left == taken + ([x] + left)
  {
  }

  lemma HeadTaken<T>(taken: seq<T>, left: seq<T>)
    requires left != []
    ensures (taken + [left[0]]) + left[1..] == taken + left
  {
  }
}
