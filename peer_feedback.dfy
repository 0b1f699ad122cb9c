/** The data logic of the peer-feedback page: the roster `STUDENTS`, the
    feedback log `feedbackData`, the queries the event handlers run over them
    and the guarded updates they make. Rendering is not modelled. */
module PeerFeedback {
  import opened JsText
  import opened JsSort

  /** One anonymous comment about one peer. There is no author field. */
  datatype Feedback = Feedback(target: string, comment: string)

  /** Which branch the add-peer handler took. */
  datatype AddOutcome = AddEmpty | AlreadyListed | Added

  /** Which branch the remove-peer handler took; `index` is where the removed
      name stood. */
  datatype RemoveOutcome = RemoveEmpty | NotFound | Removed(index: nat)

  /** What the summary panel shows: a prompt when no peer is selected,
      otherwise the feedback aggregated for that peer (possibly none). */
  datatype Summary = NoPeerSelected | Aggregated(entries: seq<Feedback>)

  /** The roster the page starts with. */
  const SeedStudents: seq<string> :=
    ["Liau Ze Xi", "Fathima Nuha Nizar", "Dina Kamelia Binti Muhamad Husaini", "Lee Bi Ying"]

  /** The feedback log the page starts with. */
  const SeedFeedback: seq<Feedback> := [
    Feedback("Fathima Nuha Nizar", "She was excellent at organization and kept the project on track. Great leadership!"),
    Feedback("Fathima Nuha Nizar", "Needs to improve communication during code reviews; sometimes too brief."),
    Feedback("Dina Kamelia Binti Muhamad Husaini", "He did a fantastic job on the design mockups. Very creative."),
    Feedback("Lee Bi Ying", "Bi Ying struggled a bit with the backend integration, maybe needs more practice with APIs.")
  ]

  // ----- Roster queries -----

  /** Names are compared by their lower-cased forms. */
  predicate SameName(a: string, b: string)
  {
    Lower(a) == Lower(b)
  }

  /** The roster invariant: no two entries are the same name. */
  predicate DistinctNames(roster: seq<string>)
  {
    forall i, j :: 0 <= i < j < |roster| ==> Lower(roster[i]) != Lower(roster[j])
  }

  /** `STUDENTS.map(s => s.toLowerCase())`. */
  function LowerAll(roster: seq<string>): (r: seq<string>)
    ensures |r| == |roster|
    ensures forall i :: 0 <= i < |roster| ==> r[i] == Lower(roster[i])
  {
    if roster == [] then [] else [Lower(roster[0])] + LowerAll(roster[1..])
  }

  /** No entry of the roster is the same name as `name`. */
  predicate NoneNamed(roster: seq<string>, name: string)
  {
    forall i :: 0 <= i < |roster| ==> !SameName(roster[i], name)
  }

  /** The add handler's duplicate test, `includes` over the lower-cased
      roster: some entry is the same name. */
  function IsListed(roster: seq<string>, name: string): (b: bool)
    ensures b <==> !NoneNamed(roster, name)
  {
    var lowered := LowerAll(roster);
    assert forall i :: 0 <= i < |roster| ==> lowered[i] == Lower(roster[i]);
    Lower(name) in lowered
  }

  /** `findIndex` with the case-insensitive test: the first position holding
      the same name, or -1 when there is none. */
  function FindIndex(roster: seq<string>, name: string): (r: int)
    ensures -1 <= r < |roster|
    ensures r == -1 ==> NoneNamed(roster, name)
    ensures r >= 0 ==> SameName(roster[r], name)
    ensures r >= 0 ==> forall i :: 0 <= i < r ==> !SameName(roster[i], name)
  {
    if roster == [] then -1
    else if SameName(roster[0], name) then 0
    else
      var rest := roster[1..];
      var k := FindIndex(rest, name);
      assert forall i :: 1 <= i < |roster| ==> roster[i] == rest[i - 1];
      if k == -1 then -1 else k + 1
  }

  /** The remove handler's lookup fails exactly when the add handler's
      duplicate test fails. */
  lemma FindIndexFindsListed(roster: seq<string>, name: string)
    ensures FindIndex(roster, name) == -1 <==> !IsListed(roster, name)
  {
  }

  /** Appending a name that is not listed keeps the roster invariant. */
  lemma DistinctAfterPush(roster: seq<string>, name: string)
    requires DistinctNames(roster) && NoneNamed(roster, name)
    ensures DistinctNames(roster + [name])
  {
    var r := roster + [name];
    forall i, j | 0 <= i < j < |r| ensures Lower(r[i]) != Lower(r[j]) {
      if j == |roster| {
        assert !SameName(roster[i], name);
      }
    }
  }

  /** Deleting one entry keeps the roster invariant. */
  lemma DistinctAfterSplice(roster: seq<string>, k: nat)
    requires DistinctNames(roster) && k < |roster|
    ensures DistinctNames(roster[..k] + roster[k + 1..])
  {
    var r := roster[..k] + roster[k + 1..];
    forall i, j | 0 <= i < j < |r| ensures Lower(r[i]) != Lower(r[j]) {
      var i', j' := if i < k then i else i + 1, if j < k then j else j + 1;
      assert r[i] == roster[i'] && r[j] == roster[j'];
    }
  }

  /** In a roster without duplicates, no entry other than the one at `k`
      is the same name as it. */
  lemma OthersDiffer(roster: seq<string>, k: nat)
    requires DistinctNames(roster) && k < |roster|
    ensures forall x :: x in roster[..k] + roster[k + 1..] ==> Lower(x) != Lower(roster[k])
  {
    var r := roster[..k] + roster[k + 1..];
    forall x | x in r ensures Lower(x) != Lower(roster[k]) {
      var m :| 0 <= m < |r| && r[m] == x;
      assert x == roster[if m < k then m else m + 1];
    }
  }

  /** Rearranging the roster keeps the roster invariant. */
  lemma {:induction false} DistinctUnderPermutation(s: seq<string>, t: seq<string>)
    requires DistinctNames(s) && multiset(s) == multiset(t)
    ensures DistinctNames(t)
  {
    if t != [] {
      var t', y := t[..|t| - 1], t[|t| - 1];
      assert t == t' + [y];
      assert y in multiset(s);
      var k :| 0 <= k < |s| && s[k] == y;
      var s' := s[..k] + s[k + 1..];
      SpliceMultiset(s, k);
      assert multiset(t') == multiset(t) - multiset{y};
      DistinctAfterSplice(s, k);
      DistinctUnderPermutation(s', t');
      OthersDiffer(s, k);
      NoneSameName(s', t', y);
      DistinctAfterPush(t', y);
    }
  }

  /** If no entry of `s` is the same name as `y`, no entry of a
      rearrangement of `s` is. */
  lemma NoneSameName(s: seq<string>, t: seq<string>, y: string)
    requires forall x :: x in s ==> Lower(x) != Lower(y)
    requires multiset(s) == multiset(t)
    ensures NoneNamed(t, y)
  {
    forall i | 0 <= i < |t| ensures !SameName(t[i], y) {
      assert t[i] in multiset(s);
    }
  }

  /** When the roster holds no duplicates, removing the first match removes
      every entry with that name. */
  lemma RemovedNameIsGone(roster: seq<string>, name: string)
    requires DistinctNames(roster)
    requires FindIndex(roster, name) >= 0
    ensures var k := FindIndex(roster, name);
      NoneNamed(roster[..k] + roster[k + 1..], name)
  {
    var k := FindIndex(roster, name);
    var r := roster[..k] + roster[k + 1..];
    forall i | 0 <= i < |r| ensures !SameName(r[i], name) {
      assert r[i] == roster[if i < k then i else i + 1];
    }
  }

  /** Removing the first match from a roster without duplicates leaves a
      roster without duplicates in which the name is no longer listed. */
  lemma RemovalKeepsInvariant(roster: seq<string>, name: string)
    requires FindIndex(roster, name) >= 0
    ensures var k := FindIndex(roster, name);
      DistinctNames(roster) ==>
        DistinctNames(roster[..k] + roster[k + 1..]) && NoneNamed(roster[..k] + roster[k + 1..], name)
  {
    if DistinctNames(roster) {
      DistinctAfterSplice(roster, FindIndex(roster, name));
      RemovedNameIsGone(roster, name);
    }
  }

  /** Deleting the entry at `k` takes exactly that name out of the multiset
      of entries. */
  lemma SpliceMultiset(roster: seq<string>, k: nat)
    requires k < |roster|
    ensures multiset(roster[..k] + roster[k + 1..]) == multiset(roster) - multiset{roster[k]}
  {
    assert roster == roster[..k] + [roster[k]] + roster[k + 1..];
  }

  /** Whether a name is listed does not depend on the roster's order. */
  lemma NoneNamedUnderPermutation(s: seq<string>, t: seq<string>, name: string)
    requires multiset(s) == multiset(t)
    ensures NoneNamed(s, name) ==> NoneNamed(t, name)
  {
    if NoneNamed(s, name) {
      forall i | 0 <= i < |t| ensures !SameName(t[i], name) {
        assert t[i] in multiset(s);
      }
    }
  }

  /** Two names whose lower-cased forms differ at one position differ. */
  lemma NamesDifferAt(a: string, b: string, p: nat)
    requires p < |a| && p < |b| && LowerChar(a[p]) != LowerChar(b[p])
    ensures Lower(a) != Lower(b)
  {
    assert Lower(a)[p] != Lower(b)[p];
  }

  /** The starting roster already satisfies the roster invariant. */
  lemma SeedStudentsDistinct()
    ensures DistinctNames(SeedStudents)
  {
    var s := SeedStudents;
    forall i, j | 0 <= i < j < |s| ensures Lower(s[i]) != Lower(s[j]) {
      var p := if i == 0 && j == 3 then 1 else 0;
      NamesDifferAt(s[i], s[j], p);
    }
  }

  // ----- Feedback queries -----

  /** `feedbackData.filter(item => item.target === targetPeer)`: the entries
      whose target is exactly `targetPeer`, each as often as it is logged. */
  function FeedbackFor(log: seq<Feedback>, targetPeer: string): (r: seq<Feedback>)
    ensures |r| <= |log|
    ensures forall k :: 0 <= k < |r| ==> r[k].target == targetPeer
  {
    if log == [] then []
    else (if log[0].target == targetPeer then [log[0]] else []) + FeedbackFor(log[1..], targetPeer)
  }

  /** The filter drops no matching entry: every entry for `targetPeer` is
      kept as often as it is logged, and no other entry is kept. */
  lemma {:induction false} FeedbackForKeepsMatches(log: seq<Feedback>, targetPeer: string)
    ensures forall f :: multiset(FeedbackFor(log, targetPeer))[f]
                        == if f.target == targetPeer then multiset(log)[f] else 0
  {
    if log != [] {
      assert log == [log[0]] + log[1..];
      FeedbackForKeepsMatches(log[1..], targetPeer);
    }
  }

  /** The filter keeps the log's order: filtering two logs one after the
      other is filtering their concatenation. */
  lemma {:induction false} FeedbackForAppend(a: seq<Feedback>, b: seq<Feedback>, targetPeer: string)
    ensures FeedbackFor(a + b, targetPeer) == FeedbackFor(a, targetPeer) + FeedbackFor(b, targetPeer)
  {
    if a == [] {
      assert a + b == b;
    } else {
      assert (a + b)[0] == a[0] && (a + b)[1..] == a[1..] + b;
      FeedbackForAppend(a[1..], b, targetPeer);
      var head := if a[0].target == targetPeer then [a[0]] else [];
      calc {
        FeedbackFor(a + b, targetPeer);
        head + FeedbackFor(a[1..] + b, targetPeer);
        head + (FeedbackFor(a[1..], targetPeer) + FeedbackFor(b, targetPeer));
        (head + FeedbackFor(a[1..], targetPeer)) + FeedbackFor(b, targetPeer);
      }
    }
  }

  /** A newly logged entry ends its target's aggregation and leaves every
      other target's aggregation as it was. */
  lemma FeedbackForAfterSubmit(log: seq<Feedback>, f: Feedback, targetPeer: string)
    ensures FeedbackFor(log + [f], targetPeer)
         == FeedbackFor(log, targetPeer) + (if f.target == targetPeer then [f] else [])
  {
    FeedbackForAppend(log, [f], targetPeer);
  }

  /** The data part of `renderSummary`: no selection yields no entries, a
      selection yields its aggregated feedback in log order. */
  function Summarize(log: seq<Feedback>, targetPeer: string): (s: Summary)
    ensures s.NoPeerSelected? <==> targetPeer == ""
    ensures s.Aggregated? ==> s.entries == FeedbackFor(log, targetPeer)
  {
    if targetPeer == "" then NoPeerSelected else Aggregated(FeedbackFor(log, targetPeer))
  }

  // ----- Handler decisions -----

  /** The branch the add-peer handler takes: the trimmed input is refused
      when empty, refused when some entry is the same name, and added
      otherwise. */
  function AddDecision(roster: seq<string>, input: string): (o: AddOutcome)
    ensures o == AddEmpty <==> Trim(input) == []
    ensures o == AlreadyListed <==> Trim(input) != [] && !NoneNamed(roster, Trim(input))
    ensures o == Added <==> Trim(input) != [] && NoneNamed(roster, Trim(input))
  {
    var newPeer := Trim(input);
    if newPeer == [] then AddEmpty
    else if IsListed(roster, newPeer) then AlreadyListed
    else Added
  }

  /** The branch the remove-peer handler takes: the trimmed input is refused
      when empty, reported missing when no entry is the same name, and
      otherwise the first entry that is the same name is removed. */
  function RemoveDecision(roster: seq<string>, input: string): (o: RemoveOutcome)
    ensures o == RemoveEmpty <==> Trim(input) == []
    ensures o == NotFound <==> Trim(input) != [] && NoneNamed(roster, Trim(input))
    ensures o.Removed? ==> o.index < |roster| && SameName(roster[o.index], Trim(input))
    ensures o.Removed? ==> forall i :: 0 <= i < o.index ==> !SameName(roster[i], Trim(input))
  {
    var peerToRemove := Trim(input);
    if peerToRemove == [] then RemoveEmpty
    else
      var index := FindIndex(roster, peerToRemove);
      if index == -1 then NotFound else Removed(index)
  }

  // ----- The page state -----

  /** The page's two global arrays and the handlers that update them. */
  class FeedbackPage {
    var students: seq<string>
    var feedbackData: seq<Feedback>

    ghost predicate Valid()
      reads this
    {
      DistinctNames(students)
    }

    /** Loads the seed data and fills the dropdowns, which sorts the roster. */
    constructor ()
      ensures Valid()
      ensures Sorted(students) && multiset(students) == multiset(SeedStudents)
      ensures feedbackData == SeedFeedback
    {
      students := SeedStudents;
      feedbackData := SeedFeedback;
      new;
      SeedStudentsDistinct();
      SortStudents();
    }

    /** `STUDENTS.sort()` in `populateDropdowns`: the roster becomes its
        ascending rearrangement in code-unit order. */
    method SortStudents()
      modifies this
      ensures Sorted(students) && multiset(students) == multiset(old(students))
      ensures feedbackData == old(feedbackData)
      ensures old(Valid()) ==> Valid()
    {
      students := SortedCopy(students);
      if DistinctNames(old(students)) {
        DistinctUnderPermutation(old(students), students);
      }
    }

    /** The data part of the add-peer handler, up to `STUDENTS.push`. */
    method AddPeer(input: string) returns (outcome: AddOutcome)
      modifies this
      ensures outcome == AddDecision(old(students), input)
      ensures students == if outcome == Added then old(students) + [Trim(input)] else old(students)
      ensures feedbackData == old(feedbackData)
      ensures old(Valid()) ==> Valid()
      ensures outcome == Added ==> multiset(students)[Trim(input)] == 1
    {
      var newPeer := Trim(input);
      if newPeer == [] {
        return AddEmpty;
      }
      if IsListed(students, newPeer) {
        return AlreadyListed;
      }
      if Valid() {
        DistinctAfterPush(students, newPeer);
      }
      assert newPeer !in students by {
        forall i | 0 <= i < |students| ensures students[i] != newPeer {
          assert !SameName(students[i], newPeer);
        }
      }
      students := students + [newPeer];
      outcome := Added;
    }

    /** The add-peer click handler: a successful add re-fills the dropdowns,
        which sorts the roster. */
    method AddPeerClicked(input: string) returns (outcome: AddOutcome)
      modifies this
      ensures outcome == AddDecision(old(students), input)
      ensures outcome == Added ==>
        Sorted(students) && multiset(students) == multiset(old(students)) + multiset{Trim(input)}
      ensures outcome != Added ==> students == old(students)
      ensures feedbackData == old(feedbackData)
      ensures old(Valid()) ==> Valid()
      ensures outcome == Added ==> multiset(students)[Trim(input)] == 1
    {
      outcome := AddPeer(input);
      if outcome == Added {
        SortStudents();
      }
    }

    /** The data part of the remove-peer handler, up to `STUDENTS.splice`. */
    method RemovePeer(input: string) returns (outcome: RemoveOutcome)
      modifies this
      ensures outcome == RemoveDecision(old(students), input)
      ensures outcome.Removed? ==>
        outcome.index < |old(students)|
        && students == old(students)[..outcome.index] + old(students)[outcome.index + 1..]
      ensures !outcome.Removed? ==> students == old(students)
      ensures feedbackData == old(feedbackData)
      ensures old(Valid()) ==> Valid()
      ensures outcome.Removed? && old(Valid()) ==> NoneNamed(students, Trim(input))
    {
      var peerToRemove := Trim(input);
      if peerToRemove == [] {
        return RemoveEmpty;
      }
      var index := FindIndex(students, peerToRemove);
      if index == -1 {
        return NotFound;
      }
      var before := students;
      students := before[..index] + before[index + 1..];
      outcome := Removed(index);
      RemovalKeepsInvariant(before, peerToRemove);
    }

    /** The remove-peer click handler: a successful removal re-fills the
        dropdowns, which sorts the roster; the feedback log is kept. */
    method RemovePeerClicked(input: string) returns (outcome: RemoveOutcome)
      modifies this
      ensures outcome == RemoveDecision(old(students), input)
      ensures outcome.Removed? ==>
        outcome.index < |old(students)|
        && Sorted(students)
        && multiset(students) == multiset(old(students)) - multiset{old(students)[outcome.index]}
      ensures !outcome.Removed? ==> students == old(students)
      ensures feedbackData == old(feedbackData)
      ensures old(Valid()) ==> Valid()
      ensures outcome.Removed? && old(Valid()) ==> NoneNamed(students, Trim(input))
    {
      ghost var before := students;
      ghost var name := Trim(input);
      outcome := RemovePeer(input);
      if outcome.Removed? {
        ghost var after := students;
        SpliceMultiset(before, outcome.index);
        assert multiset(after) == multiset(before) - multiset{before[outcome.index]};
        ghost var afterNamed := NoneNamed(after, name);
        SortStudents();
        NoneNamedUnderPermutation(after, students, name);
        assert afterNamed ==> NoneNamed(students, name);
      }
    }

    /** The feedback-form submit handler: the target is taken as selected,
        the comment is trimmed, and one entry is logged when both are
        non-empty. */
    method SubmitFeedback(targetName: string, text: string) returns (submitted: bool)
      modifies this
      ensures submitted <==> targetName != [] && Trim(text) != []
      ensures feedbackData == if submitted then old(feedbackData) + [Feedback(targetName, Trim(text))]
                              else old(feedbackData)
      ensures students == old(students)
    {
      var comment := Trim(text);
      submitted := targetName != [] && comment != [];
      if submitted {
        feedbackData := feedbackData + [Feedback(targetName, comment)];
      }
    }
  }
}
