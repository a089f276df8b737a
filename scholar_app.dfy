/** The pure logic of the TemanDosen form: cleaning a pasted Google Scholar
    profile link (or an ID with trailing query parameters) into the bare
    profile ID, the two conditions the form tests on that ID, and the
    selection of the first five publication titles. */
module ScholarApp {
  import opened PyStrings

  /** The query parameter that carries the profile ID in a Scholar link. */
  const UserMarker: string := "user="
  /** The separator between query parameters. */
  const Amp: string := "&"

  /** `bersihkan_id`: the text after the first `user=` up to the next `&`
      when there is a `user=`; otherwise the text before the first `&`;
      otherwise the input itself. The cleaned ID never holds a separator.
      app.py guards the link branch with `try`/`except`; here the index `[1]`
      is proved in range, so that fallback has no counterpart. */
  function CleanId(input: string): (id: string)
    ensures !Contains(id, Amp)
    ensures !Contains(id, UserMarker)
  {
    if In(UserMarker, input) then
      var piece := Split(input, UserMarker)[1];
      SplitHead(piece, Amp);
      PrefixKeepsAbsence(piece, UserMarker, FindOrEnd(piece, Amp));
      Split(piece, Amp)[0]
    else if In(Amp, input) then
      SplitHead(input, Amp);
      PrefixKeepsAbsence(input, UserMarker, FindOrEnd(input, Amp));
      Split(input, Amp)[0]
    else
      input
  }

  /** A place in `t` where the link branch stops: an `&` or another `user=`. */
  ghost predicate StopAt(t: string, k: int) {
    OccursAt(t, Amp, k) || OccursAt(t, UserMarker, k)
  }

  /** The `except` of the link branch is never reached: once `user=` occurs, the split
      has a second piece, and the result is the head of that piece split at `&`. */
  lemma CleanIdLinkTotal(input: string)
    requires Contains(input, UserMarker)
    ensures |Split(input, UserMarker)| >= 2
    ensures CleanId(input) == Split(Split(input, UserMarker)[1], Amp)[0]
  {
  }

  /** Link branch: with the first `user=` at `i`, the result is the text after it up
      to (not including) the first `&` or `user=` that follows, or the end. */
  lemma CleanIdLink(input: string, i: nat)
    requires FirstOccurrence(input, UserMarker, i)
    ensures var rest := input[i + |UserMarker|..];
      && CleanId(input) <= rest
      && (|CleanId(input)| == |rest| || StopAt(rest, |CleanId(input)|))
      && forall k :: 0 <= k < |CleanId(input)| ==> !StopAt(rest, k)
  {
    var rest := input[i + |UserMarker|..];
    SplitSecond(input, UserMarker, i);
    SplitHead(rest, UserMarker);
    var j1 := FindOrEnd(rest, UserMarker);
    var piece := rest[..j1];
    SplitHead(piece, Amp);
    var j := FindOrEnd(piece, Amp);
    assert CleanId(input) == rest[..j];
    forall k | 0 <= k < j ensures !StopAt(rest, k) {
      OccursInPrefix(rest, Amp, j1, k);
    }
    if j < j1 {
      OccursInPrefix(rest, Amp, j1, j);
    }
  }

  /** The link-branch stop is unique: a stop at `j` with none before it fixes the result. */
  lemma CleanIdLinkUpTo(input: string, i: nat, rest: string, j: nat)
    requires FirstOccurrence(input, UserMarker, i) && rest == input[i + |UserMarker|..]
    requires j <= |rest| && StopAt(rest, j)
    requires forall k :: 0 <= k < j ==> !StopAt(rest, k)
    ensures CleanId(input) == rest[..j]
  {
    CleanIdLink(input, i);
  }

  /** Ampersand branch: without `user=`, the result is the text before the first `&`. */
  lemma CleanIdAmpersand(input: string)
    requires !Contains(input, UserMarker) && Contains(input, Amp)
    ensures var j := |CleanId(input)|;
      && j < |input| && input[j] == '&'
      && CleanId(input) == input[..j]
      && forall k :: 0 <= k < j ==> input[k] != '&'
  {
    SplitHead(input, Amp);
    var j := FindOrEnd(input, Amp);
    assert OccursAt(input, Amp, j);
    OccursAtChar(input, '&', j);
    forall k | 0 <= k < j ensures input[k] != '&' {
      OccursAtChar(input, '&', k);
    }
  }

  /** Fallthrough: the input comes back unchanged exactly when it has neither
      `user=` nor `&`; nothing is trimmed. */
  lemma CleanIdUnchangedIff(input: string)
    ensures CleanId(input) == input <==> !Contains(input, UserMarker) && !Contains(input, Amp)
  {
    if Contains(input, UserMarker) {
      var i := Find(input, UserMarker).value;
      CleanIdLink(input, i);
    } else if Contains(input, Amp) {
      CleanIdAmpersand(input);
    }
  }

  /** Cleaning an already cleaned ID changes nothing. */
  lemma CleanIdIdempotent(input: string)
    ensures CleanId(CleanId(input)) == CleanId(input)
  {
  }

  /** The cleaned ID is a contiguous piece of the input, and a prefix of it when
      there is no `user=`. */
  lemma CleanIdIsSubstring(input: string)
    ensures Contains(input, CleanId(input))
    ensures |CleanId(input)| <= |input|
    ensures !Contains(input, UserMarker) ==> CleanId(input) <= input
  {
    var id := CleanId(input);
    if Contains(input, UserMarker) {
      var i := Find(input, UserMarker).value;
      CleanIdLink(input, i);
      var start := i + |UserMarker|;
      assert input[start..start + |id|] == id;
      assert OccursAt(input, id, start);
    } else {
      if Contains(input, Amp) {
        CleanIdAmpersand(input);
      }
      assert input[0..|id|] == id;
      assert OccursAt(input, id, 0);
    }
  }

  /** A Scholar profile link with a trailing `hl=` parameter yields the bare ID. */
  lemma CleanIdExampleLink()
    ensures CleanId("https://x/profile?user=3lUcciYAAAAJ&hl=en") == "3lUcciYAAAAJ"
  {
    ExampleLinkMarker();
    ExampleLinkRest();
    CleanIdLinkUpTo("https://x/profile?user=3lUcciYAAAAJ&hl=en", 18,
      "https://x/profile?user=3lUcciYAAAAJ&hl=en"[23..], 12);
  }

  /** The first `user=` of the example link is at index 18. */
  lemma ExampleLinkMarker()
    ensures FirstOccurrence("https://x/profile?user=3lUcciYAAAAJ&hl=en", UserMarker, 18)
  {
    var link := "https://x/profile?user=3lUcciYAAAAJ&hl=en";
    assert OccursAt(link, UserMarker, 18) by {
      var m := link[18..23];
      assert link[18] == 'u' && link[19] == 's' && link[20] == 'e' && link[21] == 'r' && link[22] == '=';
      assert m[0] == link[18] && m[1] == link[19] && m[2] == link[20];
      assert m[3] == link[21] && m[4] == link[22];
    }
    forall k | 0 <= k < 18 ensures !OccursAt(link, UserMarker, k) {
      assert link[k] != 'u';
      assert link[k..k + 5][0] == link[k];
    }
  }

  /** After its `user=`, the example link stops first at index 12, and the text
      before that stop is the bare ID. */
  lemma ExampleLinkRest()
    ensures var rest := "https://x/profile?user=3lUcciYAAAAJ&hl=en"[23..];
      && 12 <= |rest| && StopAt(rest, 12)
      && (forall k :: 0 <= k < 12 ==> !StopAt(rest, k))
      && rest[..12] == "3lUcciYAAAAJ"
  {
    var link := "https://x/profile?user=3lUcciYAAAAJ&hl=en";
    var id := "3lUcciYAAAAJ";
    var rest := link[23..];
    assert forall k :: 0 <= k < 12 ==> rest[k] == link[k + 23] == id[k];
    assert rest[12] == '&';
    OccursAtChar(rest, '&', 12);
    forall k | 0 <= k < 12 ensures !StopAt(rest, k) {
      OccursAtChar(rest, '&', k);
      assert rest[k..k + 5][0] == rest[k];
    }
    assert rest[..12] == id;
  }

  /** A bare ID (the form's placeholder) and the empty input come back unchanged. */
  lemma CleanIdExampleBare()
    ensures CleanId("3lUcciYAAAAJ") == "3lUcciYAAAAJ"
    ensures CleanId("") == ""
  {
    AbsentFirstChar("3lUcciYAAAAJ", UserMarker);
    AbsentFirstChar("3lUcciYAAAAJ", Amp);
    AbsentFirstChar("", UserMarker);
    AbsentFirstChar("", Amp);
  }

  /** The "ID detected" banner condition (app.py lines 30-33): the pasted text is
      non-empty and cleaning changed it. The banner shows exactly when the text
      holds `user=` or `&`. */
  predicate IdDetected(raw: string): (b: bool)
    ensures b <==> Contains(raw, UserMarker) || Contains(raw, Amp)
  {
    CleanIdUnchangedIff(raw);
    |raw| > 0 && raw != CleanId(raw)
  }

  /** The guard in front of the analysis (app.py lines 30 and 51): the ID cleaned
      from the pasted text is empty. Without `user=` it fires exactly for empty
      text or text starting with `&`; with the first `user=` at `i`, exactly when
      the text ends there or an `&` or another `user=` follows at once. */
  predicate MissingId(raw: string): (b: bool)
    ensures !Contains(raw, UserMarker) ==> (b <==> raw == "" || raw[0] == '&')
    ensures forall i :: FirstOccurrence(raw, UserMarker, i) ==>
      (b <==> i + |UserMarker| == |raw| || StopAt(raw[i + |UserMarker|..], 0))
  {
    if In(UserMarker, raw) then
      CleanIdLink(raw, Find(raw, UserMarker).value);
      |CleanId(raw)| == 0
    else if In(Amp, raw) then
      CleanIdAmpersand(raw);
      |CleanId(raw)| == 0
    else
      ContainsChar(raw, '&');
      |CleanId(raw)| == 0
  }

  /** A publication as the profile source returns it; only the title is used. */
  datatype Publication = Publication(title: string)

  /** The titles of `pubs`, in order. */
  function Titles(pubs: seq<Publication>): (ts: seq<string>)
    ensures |ts| == |pubs|
    ensures forall k :: 0 <= k < |pubs| ==> ts[k] == pubs[k].title
  {
    if |pubs| == 0 then [] else [pubs[0].title] + Titles(pubs[1..])
  }

  /** The titles of the first five publications (Python's slice `[:5]`). */
  function FirstTitles(pubs: seq<Publication>): (ts: seq<string>)
    ensures |ts| == if |pubs| < 5 then |pubs| else 5
    ensures forall k :: 0 <= k < |ts| ==> ts[k] == pubs[k].title
  {
    Titles(pubs[..if |pubs| < 5 then |pubs| else 5])
  }
}
