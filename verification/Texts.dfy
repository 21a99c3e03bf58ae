/** String search, as `str::contains`. */
module Texts {
  predicate Includes(text: string, part: string) {
    part <= text || (|text| > 0 && Includes(text[1..], part))
  }

  ghost predicate OccursAt(text: string, part: string, i: nat) {
    i + |part| <= |text| && text[i..i + |part|] == part
  }

  /** The part occurs somewhere in the text. */
  lemma {:induction false} IncludesIff(text: string, part: string)
    ensures Includes(text, part) <==> exists i: nat :: OccursAt(text, part, i)
  {
    if part <= text {
      assert OccursAt(text, part, 0);
    } else if |text| > 0 {
      var rest := text[1..];
      IncludesIff(rest, part);
      if i: nat :| OccursAt(rest, part, i) {
        assert text[i + 1..i + 1 + |part|] == rest[i..i + |part|];
        assert OccursAt(text, part, i + 1);
      }
      if i: nat :| OccursAt(text, part, i) {
        assert i > 0;
        assert rest[i - 1..i - 1 + |part|] == text[i..i + |part|];
        assert OccursAt(rest, part, i - 1);
      }
    }
  }
}
