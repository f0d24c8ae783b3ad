/**
  `get_rephrase`: a phrase a parent is about to say, and an age group, are
  resolved to a gentler suggested phrasing. The phrase is lowercased and
  stripped, one of two ordered (key, reply) libraries is chosen by the age
  group, and the reply of the first key occurring in the phrase is returned;
  when no key occurs, a fixed default sentence is returned.
 */
module Rephrase {
  import opened Text

  datatype Option<T> = None | Some(value: T)

  /** One (key, reply) pair of a library, in declaration order. */
  datatype Entry = Entry(key: string, reply: string)

  type Library = seq<Entry>

  /** The library used when the age group is exactly "Child". */
  const ChildLibrary: Library := [
    Entry("running", "Remember we walk when indoors."),
    Entry("hit", "Hitting is not allowed. Hands are for helping."),
    Entry("quiet", "Use your indoor voice please?"),
    Entry("crying", "I can see you are having a hard time. I'm here to help you."),
    Entry("touch", "Let's keep our hands to ourselves for now."),
    Entry("dessert", "We can have dessert after we finish dinner.")
  ]

  /** The library used for every other age group. */
  const TeenLibrary: Library := [
    Entry("phone", "Let's put the phones away for dinner?"),
    Entry("room", "We need to get this room clean. Do you need some help?"),
    Entry("talk back", "Let us talk in a manner that is respectful. Keep in mind that I am still your parent."),
    Entry("late", "Coming home past curfew is unacceptable for your safety. How can we make sure it doesn't happen next time?")
  ]

  const DefaultReply: string := "Try focusing on the boundary while offering a path forward with grace."

  lemma NormalFormFacts(s: string)
    ensures Strip(Lower(s)) == Lower(Strip(s))
    ensures forall i :: 0 <= i < |Strip(Lower(s))| ==> !IsUpper(Strip(Lower(s))[i])
  {
    LowerStripCommute(s);
  }

  /** `phrase.lower().strip()`: lowercase first, then strip. The result is
      the same as stripping first, so it holds no upper-case letter and no
      whitespace at either end. */
  function Normalise(phrase: string): (r: string)
    ensures r == Lower(Strip(phrase))
    ensures forall i :: 0 <= i < |r| ==> !IsUpper(r[i])
    ensures r == [] || (!IsSpace(r[0]) && !IsSpace(r[|r| - 1]))
  {
    NormalFormFacts(phrase);
    Strip(Lower(phrase))
  }

  /** The library an age group consults: the child one exactly for
      "Child", the teen one for every other string. */
  function SelectLibrary(ageGroup: string): (r: Library)
    ensures r == ChildLibrary <==> ageGroup == "Child"
    ensures r == TeenLibrary <==> ageGroup != "Child"
  {
    if ageGroup == "Child" then ChildLibrary else TeenLibrary
  }

  /** Index of the first entry of `lib` whose key is a substring of `s`. */
  function FirstMatch(lib: Library, s: string): (r: Option<nat>)
    ensures r.Some? ==> r.value < |lib| && IsSubstring(lib[r.value].key, s)
    ensures r.Some? ==> forall j :: 0 <= j < r.value ==> !IsSubstring(lib[j].key, s)
    ensures r.None? ==> forall j :: 0 <= j < |lib| ==> !IsSubstring(lib[j].key, s)
  {
    if lib == [] then None
    else if IsSubstring(lib[0].key, s) then Some(0)
    else match FirstMatch(lib[1..], s)
      case None => None
      case Some(k) => Some(k + 1)
  }

  /** The first-match loop over a library: the reply of the first key
      found in `s`, or the default sentence. The result is always one of
      the two. */
  function Resolve(lib: Library, s: string): (r: string)
    ensures r == DefaultReply || exists k :: 0 <= k < |lib| && r == lib[k].reply
  {
    match FirstMatch(lib, s)
    case Some(k) => lib[k].reply
    case None => DefaultReply
  }

  /** The suggested rephrasing; it is always a reply of the selected library
      or the default sentence. */
  function GetRephrase(phrase: string, ageGroup: string): (r: string)
    ensures r == DefaultReply
         || exists k :: 0 <= k < |SelectLibrary(ageGroup)| && r == SelectLibrary(ageGroup)[k].reply
  {
    Resolve(SelectLibrary(ageGroup), Normalise(phrase))
  }

  /** The source's loop: scan the library in declaration order and return at
      the first key found in `s`; after the loop, return the default. */
  method ResolveLoop(library: Library, s: string) returns (r: string)
    ensures r == Resolve(library, s)
  {
    for i := 0 to |library|
      invariant forall j :: 0 <= j < i ==> !IsSubstring(library[j].key, s)
    {
      if IsSubstring(library[i].key, s) {
        return library[i].reply;
      }
    }
    return DefaultReply;
  }
}
