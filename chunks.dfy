/**
  The build's `manualChunks` hook: a module id is put into a named vendor
  chunk by the first of four substring tests it passes, or left to the
  bundler's default chunking when it passes none.
*/
module Chunks {
  import opened Wrappers

  /** `t` occurs in `s` starting at position `i`. */
  predicate OccursAt(s: string, t: string, i: int)
  {
    0 <= i && i + |t| <= |s| && s[i..i + |t|] == t
  }

  /** The meaning of `String.prototype.includes`: `t` occurs somewhere in `s`. */
  ghost predicate Contains(s: string, t: string)
  {
    exists i :: OccursAt(s, t, i)
  }

  predicate StartsWith(s: string, p: string)
  {
    |p| <= |s| && s[..|p|] == p
  }

  /** `s.includes(t)`, searching from the left. */
  function Includes(s: string, t: string): bool
    decreases |s|
  {
    if StartsWith(s, t) then true
    else if s == [] then false
    else Includes(s[1..], t)
  }

  /** `Includes` finds `t` exactly when it occurs in `s`. */
  lemma {:induction false} IncludesContains(s: string, t: string)
    ensures Includes(s, t) <==> Contains(s, t)
    decreases |s|
  {
    if StartsWith(s, t) {
      assert OccursAt(s, t, 0);
    } else if s != [] {
      IncludesContains(s[1..], t);
      if Includes(s[1..], t) {
        var j :| OccursAt(s[1..], t, j);
        var found, shifted := s[j + 1..j + 1 + |t|], s[1..][j..j + |t|];
        forall k | 0 <= k < |t| ensures found[k] == shifted[k] {
        }
        assert OccursAt(s, t, j + 1);
      } else {
        forall i | 0 < i && OccursAt(s, t, i) ensures OccursAt(s[1..], t, i - 1) {
          var found, shifted := s[i..i + |t|], s[1..][i - 1..i - 1 + |t|];
          forall k | 0 <= k < |t| ensures found[k] == shifted[k] {
          }
        }
        assert !OccursAt(s, t, 0);
      }
    }
  }

  const ScrollTriggerId: string := "gsap/ScrollTrigger"
  const GsapId: string := "gsap"
  const ThreeId: string := "three"
  const LottieId: string := "lottie-web"

  /** The chunk a module id is assigned to; `None` is the hook returning `undefined`. */
  function ManualChunks(id: string): (chunk: Option<string>)
    ensures chunk.Some? ==> chunk.value in {"gsap-scroll-trigger", "gsap", "three", "lottie"}
  {
    if Includes(id, ScrollTriggerId) then Some("gsap-scroll-trigger")
    else if Includes(id, GsapId) then Some("gsap")
    else if Includes(id, ThreeId) then Some("three")
    else if Includes(id, LottieId) then Some("lottie")
    else None
  }

  /** Every occurrence of `gsap/ScrollTrigger` is an occurrence of `gsap`. */
  lemma ScrollTriggerIsGsap(s: string)
    ensures Contains(s, ScrollTriggerId) ==> Contains(s, GsapId)
  {
    if Contains(s, ScrollTriggerId) {
      var i :| OccursAt(s, ScrollTriggerId, i);
      assert s[i..i + |GsapId|] == s[i..i + |ScrollTriggerId|][..|GsapId|];
      assert OccursAt(s, GsapId, i);
    }
  }

  /** The ScrollTrigger plugin gets its own chunk, although its id also contains `gsap`. */
  lemma ScrollTriggerChunk(id: string)
    ensures ManualChunks(id) == Some("gsap-scroll-trigger") <==> Contains(id, ScrollTriggerId)
  {
    IncludesContains(id, ScrollTriggerId);
  }

  /** Any other id containing `gsap` is in the `gsap` chunk, whatever else it contains. */
  lemma GsapChunk(id: string)
    ensures ManualChunks(id) == Some("gsap") <==>
            Contains(id, GsapId) && !Contains(id, ScrollTriggerId)
  {
    IncludesContains(id, ScrollTriggerId);
    IncludesContains(id, GsapId);
  }

  /** `three` wins over `lottie-web`, and neither is tested once `gsap` matched. */
  lemma ThreeChunk(id: string)
    ensures ManualChunks(id) == Some("three") <==>
            Contains(id, ThreeId) && !Contains(id, GsapId)
  {
    IncludesContains(id, ScrollTriggerId);
    IncludesContains(id, GsapId);
    IncludesContains(id, ThreeId);
    ScrollTriggerIsGsap(id);
  }

  lemma LottieChunk(id: string)
    ensures ManualChunks(id) == Some("lottie") <==>
            Contains(id, LottieId) && !Contains(id, GsapId) && !Contains(id, ThreeId)
  {
    IncludesContains(id, ScrollTriggerId);
    IncludesContains(id, GsapId);
    IncludesContains(id, ThreeId);
    IncludesContains(id, LottieId);
    ScrollTriggerIsGsap(id);
  }

  /** An id with none of the library names gets no manual chunk, and only such an id. */
  lemma NoChunk(id: string)
    ensures ManualChunks(id).None? <==>
            !Contains(id, GsapId) && !Contains(id, ThreeId) && !Contains(id, LottieId)
  {
    IncludesContains(id, ScrollTriggerId);
    IncludesContains(id, GsapId);
    IncludesContains(id, ThreeId);
    IncludesContains(id, LottieId);
    ScrollTriggerIsGsap(id);
  }
}
