/**
  What `get_rephrase` promises: which reply it returns (the first declared
  key found wins), when it falls back to the default sentence, that only the
  lowercased, stripped phrase matters, and how the age group selects the
  library. The last group of lemmas pins down concrete inputs.
 */
module RephraseProperties {
  import opened Text
  import opened Rephrase

  /** Replies of a library are pairwise distinct and differ from the default,
      so a returned string identifies the entry that produced it. */
  predicate DistinctReplies(lib: Library) {
    (forall i, j :: 0 <= i < j < |lib| ==> lib[i].reply != lib[j].reply)
    && forall i :: 0 <= i < |lib| ==> lib[i].reply != DefaultReply
  }

  lemma ChildRepliesDistinct()
    ensures DistinctReplies(ChildLibrary)
  {
  }

  lemma TeenRepliesDistinct()
    ensures DistinctReplies(TeenLibrary)
  {
  }

  lemma LibrariesHaveDistinctReplies()
    ensures DistinctReplies(ChildLibrary) && DistinctReplies(TeenLibrary)
  {
    ChildRepliesDistinct();
    TeenRepliesDistinct();
  }

  /** The declared (key, reply) pairs, in order, and the default sentence. */
  lemma LibraryEntries()
    ensures |ChildLibrary| == 6
    ensures ChildLibrary[0] == Entry("running", "Remember we walk when indoors.")
    ensures ChildLibrary[1] == Entry("hit", "Hitting is not allowed. Hands are for helping.")
    ensures ChildLibrary[2] == Entry("quiet", "Use your indoor voice please?")
    ensures ChildLibrary[3] == Entry("crying", "I can see you are having a hard time. I'm here to help you.")
    ensures ChildLibrary[4] == Entry("touch", "Let's keep our hands to ourselves for now.")
    ensures ChildLibrary[5] == Entry("dessert", "We can have dessert after we finish dinner.")
    ensures |TeenLibrary| == 4
    ensures TeenLibrary[0] == Entry("phone", "Let's put the phones away for dinner?")
    ensures TeenLibrary[1] == Entry("room", "We need to get this room clean. Do you need some help?")
    ensures TeenLibrary[2] == Entry("talk back", "Let us talk in a manner that is respectful. Keep in mind that I am still your parent.")
    ensures TeenLibrary[3] == Entry("late", "Coming home past curfew is unacceptable for your safety. How can we make sure it doesn't happen next time?")
    ensures DefaultReply == "Try focusing on the boundary while offering a path forward with grace."
  {
  }

  /** The loop returns the reply of the first entry whose key occurs. */
  lemma ResolveFirst(lib: Library, s: string, k: nat)
    requires k < |lib| && IsSubstring(lib[k].key, s)
    requires forall j :: 0 <= j < k ==> !IsSubstring(lib[j].key, s)
    ensures Resolve(lib, s) == lib[k].reply
  {
    assert FirstMatch(lib, s) == Some(k);
  }

  /** The loop falls through to the default when no key occurs. */
  lemma ResolveNone(lib: Library, s: string)
    requires forall j :: 0 <= j < |lib| ==> !IsSubstring(lib[j].key, s)
    ensures Resolve(lib, s) == DefaultReply
  {
    assert FirstMatch(lib, s) == None;
  }

  /** On a library with distinct replies, the loop returns the reply of entry
      `k` exactly when key `k` occurs in `s` and no earlier key does. */
  lemma ResolveCharacterisation(lib: Library, s: string, k: nat)
    requires DistinctReplies(lib) && k < |lib|
    ensures Resolve(lib, s) == lib[k].reply
            <==> IsSubstring(lib[k].key, s) && forall j :: 0 <= j < k ==> !IsSubstring(lib[j].key, s)
  {
    match FirstMatch(lib, s)
    case None =>
    case Some(m) =>
      assert Resolve(lib, s) == lib[m].reply;
      assert m != k ==> lib[m].reply != lib[k].reply;
  }

  /** On a library with distinct replies, the loop returns the default
      exactly when no key occurs in `s`. */
  lemma ResolveDefaultCharacterisation(lib: Library, s: string)
    requires DistinctReplies(lib)
    ensures Resolve(lib, s) == DefaultReply <==> forall j :: 0 <= j < |lib| ==> !IsSubstring(lib[j].key, s)
  {
    match FirstMatch(lib, s)
    case None =>
    case Some(m) =>
      assert lib[m].reply != DefaultReply;
  }

  /** When keys `i < j` both occur in `s`, the loop stops at `i` or earlier. */
  lemma ResolveFirstDeclaredWins(lib: Library, s: string, i: nat, j: nat)
    requires DistinctReplies(lib) && i < j < |lib|
    requires IsSubstring(lib[i].key, s) && IsSubstring(lib[j].key, s)
    ensures Resolve(lib, s) != lib[j].reply
    ensures exists k :: 0 <= k <= i && Resolve(lib, s) == lib[k].reply
  {
    var m := FirstMatch(lib, s).value;
    assert m <= i && Resolve(lib, s) == lib[m].reply;
    assert lib[m].reply != lib[j].reply;
  }

  /** The result is the reply of entry `k` of the selected library exactly
      when key `k` occurs in the normalised phrase and no earlier key does. */
  lemma ReplyCharacterisation(phrase: string, ageGroup: string, k: nat)
    requires k < |SelectLibrary(ageGroup)|
    ensures var lib := SelectLibrary(ageGroup);
            var s := Normalise(phrase);
            GetRephrase(phrase, ageGroup) == lib[k].reply
            <==> IsSubstring(lib[k].key, s) && forall j :: 0 <= j < k ==> !IsSubstring(lib[j].key, s)
  {
    LibrariesHaveDistinctReplies();
    ResolveCharacterisation(SelectLibrary(ageGroup), Normalise(phrase), k);
  }

  /** The default sentence is returned exactly when no key of the selected
      library occurs in the normalised phrase. */
  lemma DefaultCharacterisation(phrase: string, ageGroup: string)
    ensures var lib := SelectLibrary(ageGroup);
            GetRephrase(phrase, ageGroup) == DefaultReply
            <==> forall j :: 0 <= j < |lib| ==> !IsSubstring(lib[j].key, Normalise(phrase))
  {
    LibrariesHaveDistinctReplies();
    ResolveDefaultCharacterisation(SelectLibrary(ageGroup), Normalise(phrase));
  }

  /** When keys `i < j` of the selected library both occur, the reply of `j`
      is never returned: it comes from key `i` or one declared before it. */
  lemma FirstDeclaredWins(phrase: string, ageGroup: string, i: nat, j: nat)
    requires i < j < |SelectLibrary(ageGroup)|
    requires IsSubstring(SelectLibrary(ageGroup)[i].key, Normalise(phrase))
    requires IsSubstring(SelectLibrary(ageGroup)[j].key, Normalise(phrase))
    ensures GetRephrase(phrase, ageGroup) != SelectLibrary(ageGroup)[j].reply
    ensures exists k :: 0 <= k <= i && GetRephrase(phrase, ageGroup) == SelectLibrary(ageGroup)[k].reply
  {
    LibrariesHaveDistinctReplies();
    ResolveFirstDeclaredWins(SelectLibrary(ageGroup), Normalise(phrase), i, j);
  }

  /** Only the lowercased phrase with its edge whitespace removed matters:
      padding with whitespace and changing the case of letters leave the
      result unchanged. */
  lemma CaseAndEdgeSpaceInsensitive(w1: string, p: string, w2: string, q: string, ageGroup: string)
    requires AllSpace(w1) && AllSpace(w2) && Lower(p) == Lower(q)
    ensures GetRephrase(w1 + p + w2, ageGroup) == GetRephrase(q, ageGroup)
  {
    LowerAppend(w1 + p, w2);
    LowerAppend(w1, p);
    LowerAllSpace(w1);
    LowerAllSpace(w2);
    StripPadded(w1, Lower(p), w2);
  }

  /** Normalising twice is normalising once. */
  lemma NormaliseIdempotent(phrase: string)
    ensures Normalise(Normalise(phrase)) == Normalise(phrase)
  {
    var l := Lower(phrase);
    LowerStripCommute(l);
    LowerIdempotent(phrase);
    StripIdempotent(l);
  }

  /** Feeding an already normalised phrase back in gives the same reply. */
  lemma NormalisedPhraseSameReply(phrase: string, ageGroup: string)
    ensures GetRephrase(Normalise(phrase), ageGroup) == GetRephrase(phrase, ageGroup)
  {
    NormaliseIdempotent(phrase);
  }

  /** Every age group other than "Child" behaves like "Teen". */
  lemma OtherGroupsUseTeenLibrary(phrase: string, ageGroup: string)
    requires ageGroup != "Child"
    ensures GetRephrase(phrase, ageGroup) == GetRephrase(phrase, "Teen")
    ensures SelectLibrary(ageGroup) == TeenLibrary
  {
  }

  // ----- Concrete inputs -----

  /** A phrase with no upper-case letter and no edge whitespace is its own
      normal form. */
  lemma AlreadyNormal(s: string)
    requires forall i :: 0 <= i < |s| ==> !IsUpper(s[i])
    requires s == [] || (!IsSpace(s[0]) && !IsSpace(s[|s| - 1]))
    ensures Normalise(s) == s
  {
    assert Lower(s) == s;
  }

  /** The child library's loop, written out as the chain of tests it
      performs, key by key in declaration order. */
  lemma ChildLibraryUnrolled(s: string)
    ensures Resolve(ChildLibrary, s) ==
      if IsSubstring("running", s) then "Remember we walk when indoors."
      else if IsSubstring("hit", s) then "Hitting is not allowed. Hands are for helping."
      else if IsSubstring("quiet", s) then "Use your indoor voice please?"
      else if IsSubstring("crying", s) then "I can see you are having a hard time. I'm here to help you."
      else if IsSubstring("touch", s) then "Let's keep our hands to ourselves for now."
      else if IsSubstring("dessert", s) then "We can have dessert after we finish dinner."
      else DefaultReply
  {
    LibraryEntries();
  }

  /** The teen library's loop, written out as the chain of tests it
      performs, key by key in declaration order. */
  lemma TeenLibraryUnrolled(s: string)
    ensures Resolve(TeenLibrary, s) ==
      if IsSubstring("phone", s) then "Let's put the phones away for dinner?"
      else if IsSubstring("room", s) then "We need to get this room clean. Do you need some help?"
      else if IsSubstring("talk back", s) then "Let us talk in a manner that is respectful. Keep in mind that I am still your parent."
      else if IsSubstring("late", s) then "Coming home past curfew is unacceptable for your safety. How can we make sure it doesn't happen next time?"
      else DefaultReply
  {
    LibraryEntries();
  }

  // Each example below only combines three facts, each proved on its own:
  // the phrase is already normalised, which keys occur in it, and the
  // library's loop written out.

  lemma KeysInRunningPrefixed(s: string)
    requires StartsWith(s, "running")
    ensures IsSubstring("running", s)
  {
  }

  lemma PaddedUpperRunning(p: string)
    requires p == "  RUNNING "
    ensures GetRephrase(p, "Child") == GetRephrase("running", "Child")
  {
    assert Lower("RUNNING") == Lower("running");
    assert p == "  " + "RUNNING" + " ";
    CaseAndEdgeSpaceInsensitive("  ", "RUNNING", " ", "running", "Child");
  }

  /** "running" gets the reply of its own key for a child. */
  lemma ExampleRunning()
    ensures GetRephrase("running", "Child") == "Remember we walk when indoors."
  {
    AlreadyNormal("running");
    KeysInRunningPrefixed("running");
    ChildLibraryUnrolled("running");
  }

  /** "  RUNNING " gets the same reply as "running" for a child. */
  lemma ExampleUpperCasePadded()
    ensures GetRephrase("  RUNNING ", "Child") == "Remember we walk when indoors."
  {
    PaddedUpperRunning("  RUNNING ");
    ExampleRunning();
  }

  lemma KeysInRunningAndHitting(s: string)
    requires s == "running and hitting"
    ensures IsSubstring("running", s) && IsSubstring("hit", s)
  {
    assert StartsWith(s, "running");
    SubstringWitness("hit", s, 12);
  }

  lemma BothKeysInRunningAndHitting(p: string)
    requires p == "running and hitting"
    ensures IsSubstring("running", Normalise(p)) && IsSubstring("hit", Normalise(p))
  {
    AlreadyNormal(p);
    KeysInRunningAndHitting(p);
  }

  lemma RunningAndHittingReply()
    ensures GetRephrase("running and hitting", "Child") == "Remember we walk when indoors."
  {
    AlreadyNormal("running and hitting");
    KeysInRunningAndHitting("running and hitting");
    ChildLibraryUnrolled("running and hitting");
  }

  /** "running and hitting" holds both "running" and "hit"; the earlier
      declared "running" wins. */
  lemma ExampleFirstDeclaredWins()
    ensures IsSubstring("running", Normalise("running and hitting"))
    ensures IsSubstring("hit", Normalise("running and hitting"))
    ensures GetRephrase("running and hitting", "Child") == "Remember we walk when indoors."
  {
    BothKeysInRunningAndHitting("running and hitting");
    RunningAndHittingReply();
  }

  lemma KeysInWhite(s: string)
    requires s == "white"
    ensures !IsSubstring("running", s) && IsSubstring("hit", s)
  {
    SubstringChars("running", s, 0);
    SubstringWitness("hit", s, 1);
  }

  /** Containment is unanchored: "white" holds "hit". */
  lemma ExampleWhiteMatchesHit()
    ensures GetRephrase("white", "Child") == "Hitting is not allowed. Hands are for helping."
  {
    AlreadyNormal("white");
    KeysInWhite("white");
    ChildLibraryUnrolled("white");
  }

  lemma KeysInChocolate(s: string)
    requires s == "chocolate"
    ensures !IsSubstring("phone", s) && !IsSubstring("room", s)
    ensures !IsSubstring("talk back", s) && IsSubstring("late", s)
  {
    SubstringChars("phone", s, 0);
    SubstringChars("room", s, 0);
    SubstringChars("talk back", s, 3);
    SubstringWitness("late", s, 5);
  }

  /** Containment is unanchored: "chocolate" holds "late", for any age group
      other than "Child". */
  lemma ExampleChocolateMatchesLate(ageGroup: string)
    requires ageGroup != "Child"
    ensures GetRephrase("chocolate", ageGroup)
         == "Coming home past curfew is unacceptable for your safety. How can we make sure it doesn't happen next time?"
  {
    AlreadyNormal("chocolate");
    KeysInChocolate("chocolate");
    TeenLibraryUnrolled("chocolate");
  }

  lemma KeysInTalkBack(s: string)
    requires s == "talk back"
    ensures !IsSubstring("phone", s) && !IsSubstring("room", s) && IsSubstring("talk back", s)
  {
    SubstringChars("phone", s, 0);
    SubstringChars("room", s, 0);
    assert StartsWith(s, "talk back");
  }

  lemma KeysInTalkTwoSpacesBack(t: string)
    requires t == "talk  back"
    ensures !IsSubstring("phone", t) && !IsSubstring("room", t)
    ensures !IsSubstring("talk back", t) && !IsSubstring("late", t)
  {
    SubstringChars("phone", t, 0);
    SubstringChars("room", t, 0);
    SubstringChars("late", t, 3);
    IsSubstringIff("talk back", t);
    forall i | 0 <= i ensures !OccursAt("talk back", t, i) {
      if i == 0 {
        assert t[0..9][5] != "talk back"[5];
      } else if i == 1 {
        assert t[1..10][0] != "talk back"[0];
      }
    }
  }

  /** "talk back" matches its key. */
  lemma ExampleTalkBack()
    ensures GetRephrase("talk back", "Teen")
         == "Let us talk in a manner that is respectful. Keep in mind that I am still your parent."
  {
    AlreadyNormal("talk back");
    KeysInTalkBack("talk back");
    TeenLibraryUnrolled("talk back");
  }

  /** Inner whitespace is kept: with two spaces "talk  back" no longer holds
      the key "talk back", and no other teen key occurs in it either. */
  lemma ExampleInnerSpaceSignificant()
    ensures GetRephrase("talk  back", "Teen") == DefaultReply
  {
    AlreadyNormal("talk  back");
    KeysInTalkTwoSpacesBack("talk  back");
    TeenLibraryUnrolled("talk  back");
  }

  lemma KeysInPhone(s: string)
    requires s == "phone"
    ensures !IsSubstring("running", s) && !IsSubstring("hit", s) && !IsSubstring("quiet", s)
    ensures !IsSubstring("crying", s) && !IsSubstring("touch", s) && !IsSubstring("dessert", s)
  {
    SubstringChars("running", s, 0);
    SubstringChars("hit", s, 1);
    SubstringChars("quiet", s, 0);
    SubstringChars("crying", s, 0);
    SubstringChars("touch", s, 0);
    SubstringChars("dessert", s, 0);
  }

  lemma KeysInRunning(t: string)
    requires t == "running"
    ensures !IsSubstring("phone", t) && !IsSubstring("room", t)
    ensures !IsSubstring("talk back", t) && !IsSubstring("late", t)
  {
    SubstringChars("phone", t, 0);
    SubstringChars("room", t, 1);
    SubstringChars("talk back", t, 0);
    SubstringChars("late", t, 0);
  }

  /** A teen key does not match for a child. */
  lemma ExampleChildIgnoresTeenKey()
    ensures GetRephrase("phone", "Child") == DefaultReply
  {
    AlreadyNormal("phone");
    KeysInPhone("phone");
    ChildLibraryUnrolled("phone");
  }

  /** A child key does not match for any age group other than "Child". */
  lemma ExampleOthersIgnoreChildKey(ageGroup: string)
    requires ageGroup != "Child"
    ensures GetRephrase("running", ageGroup) == DefaultReply
  {
    AlreadyNormal("running");
    KeysInRunning("running");
    TeenLibraryUnrolled("running");
  }
}
