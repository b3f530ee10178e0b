/** Bracketed character classes of regular expressions. */
module CharClass {
  /** Is the character in the class between brackets, of single characters and ranges? */
  predicate InClass(class_: string, c: char)
    decreases |class_|
  {
    if class_ == [] then false
    else if |class_| >= 3 && class_[1] == '-' then class_[0] <= c <= class_[2] || InClass(class_[3..], c)
    else c == class_[0] || InClass(class_[1..], c)
  }

  /** A range in front of a class. */
  lemma RangeThen(lo: char, hi: char, rest: string, c: char)
    ensures InClass([lo, '-', hi] + rest, c) <==> lo <= c <= hi || InClass(rest, c)
  {
    assert ([lo, '-', hi] + rest)[3..] == rest;
  }

  /** A class without ranges. */
  lemma {:induction false} Unranged(class_: string, c: char)
    requires forall i :: 0 < i < |class_| - 1 ==> class_[i] != '-'
    ensures InClass(class_, c) <==> c in class_
  {
    if class_ != [] {
      Unranged(class_[1..], c);
      assert class_ == [class_[0]] + class_[1..];
    }
  }
}
