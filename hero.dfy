/**
  The hero section's typed-name effect: the name element starts empty and a
  chain of delayed callbacks appends the name one character at a time; the
  callback that finds nothing left to type drops the `typing` cursor and
  starts the tagline timeline instead of scheduling another call.
*/
module Hero {

  const OriginalName: string := "MUHAMMAD SAAD KHAN"

  /** Each tagline tween lasts this long. */
  const TaglineDuration: real := 1.0
  /**
    The `"-=0.7"` position: a tween starts this long before the end of the
    timeline so far. Since every tween lasts `TaglineDuration`, that end is
    the end of the previous tween.
  */
  const TaglineOverlap: real := 0.7

  /**
    Start offsets of the tagline, subheading and CTA tweens of the
    timeline built when typing is done, the first one at 0.
  */
  function TaglineStarts(n: nat): (starts: seq<real>)
    ensures |starts| == n
    ensures forall k :: 0 <= k < n ==> starts[k] == k as real * (TaglineDuration - TaglineOverlap)
  {
    if n == 0 then []
    else
      var prev := TaglineStarts(n - 1);
      prev + [if n == 1 then 0.0 else prev[n - 2] + TaglineDuration - TaglineOverlap]
  }

  /** The three reveals follow each other 0.3 apart, and the last ends at 1.6. */
  lemma TaglineTimeline()
    ensures TaglineStarts(3) == [0.0, 0.3, 0.6]
    ensures TaglineStarts(3)[2] + TaglineDuration == 1.6
  {
    var s := TaglineStarts(3);
    assert s[0] == 0.0 && s[1] == 0.3 && s[2] == 0.6;
  }

  /** The state `typeName` closes over: the element's text, the counter and the cursor class. */
  class NameTyper {
    /** `nameEl.textContent` */
    var text: string
    /** The counter `i`. */
    var i: nat
    /** Whether the element still has the `typing` class. */
    var typing: bool
    /** How many tagline timelines have been started. */
    var taglineRuns: nat

    /** What the typed text always is: a prefix of the name, and the tagline only once it is whole. */
    ghost predicate Valid()
      reads this
    {
      && i <= |OriginalName|
      && text == OriginalName[..i]
      && (taglineRuns > 0 ==> i == |OriginalName| && !typing)
    }

    /** The element after its text is cleared, with the cursor class from the page. */
    constructor ()
      ensures Valid() && text == "" && i == 0 && typing && taglineRuns == 0
    {
      text := "";
      i := 0;
      typing := true;
      taglineRuns := 0;
    }

    /**
      One call of `typeName`. While characters remain it appends the next one
      and asks for another call; otherwise it removes the cursor and starts
      the tagline timeline, and schedules nothing.
    */
    method TypeName() returns (scheduled: bool)
      requires Valid()
      modifies this
      ensures Valid()
      ensures scheduled <==> old(i) < |OriginalName|
      ensures old(i) < |OriginalName| ==>
                && i == old(i) + 1 && text == old(text) + [OriginalName[old(i)]]
                && typing == old(typing) && taglineRuns == old(taglineRuns)
      ensures old(i) == |OriginalName| ==>
                && i == old(i) && text == OriginalName && !typing
                && taglineRuns == old(taglineRuns) + 1
    {
      if i < |OriginalName| {
        assert OriginalName[..i + 1] == OriginalName[..i] + [OriginalName[i]];
        text := text + [OriginalName[i]];
        i := i + 1;
        scheduled := true;
      } else {
        typing := false;
        taglineRuns := taglineRuns + 1;
        scheduled := false;
      }
    }

    /**
      The whole chain from the first delayed call: it runs until a call
      schedules nothing, which happens exactly once, with the full name typed.
    */
    method RunTyping() returns (calls: nat)
      requires Valid()
      modifies this
      ensures Valid()
      ensures calls == |OriginalName| - old(i) + 1
      ensures text == OriginalName && i == |OriginalName| && !typing
      ensures taglineRuns == old(taglineRuns) + 1
    {
      var again := TypeName();
      calls := 1;
      while again
        invariant Valid()
        invariant again <==> taglineRuns == old(taglineRuns)
        invariant again ==> calls == i - old(i)
        invariant !again ==> calls == |OriginalName| - old(i) + 1 && taglineRuns == old(taglineRuns) + 1
        invariant i >= old(i)
        decreases |OriginalName| - i + (if again then 1 else 0)
      {
        again := TypeName();
        calls := calls + 1;
      }
    }
  }
}
