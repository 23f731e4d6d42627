/** TurkishStemmer of src/turkish_stemmer.h: a suffix stripper that truncates
    a NUL-terminated word in place, in three ordered stages (plural,
    possessive, case).

    The stages are specified as functions on the word's bytes (`StemWord`),
    and the methods that truncate a buffer are proved to leave in it the C
    string those functions give. Words are UTF-8 bytes, so "ı" is the two
    bytes C4 B1 and counts as two towards every length test. */
module Stemming {
  import opened Bytes
  import opened Wrappers
  import opened IndexTypes

  /** ends_with (src/turkish_stemmer.h:9-16): the word's last bytes are the
      suffix, compared from the end. */
  predicate EndsWith(word: seq<cchar>, suffix: seq<cchar>)
    decreases |suffix|
  {
    suffix == [] ||
    (word != [] && word[|word| - 1] == suffix[|suffix| - 1] && EndsWith(word[..|word| - 1], suffix[..|suffix| - 1]))
  }

  /** EndsWith is what strcmp on the tail decides: the word is at least as
      long as the suffix, and its last |suffix| bytes are the suffix. */
  lemma {:induction false} EndsWithSlice(word: seq<cchar>, suffix: seq<cchar>)
    ensures EndsWith(word, suffix) <==> |suffix| <= |word| && word[|word| - |suffix|..] == suffix
    decreases |suffix|
  {
    if suffix != [] && word != [] {
      EndsWithSlice(word[..|word| - 1], suffix[..|suffix| - 1]);
      if |suffix| <= |word| && word[|word| - |suffix|..] == suffix {
        assert word[..|word| - 1][|word| - |suffix|..] == suffix[..|suffix| - 1];
      }
      if EndsWith(word, suffix) {
        assert word[|word| - |suffix|..] == word[..|word| - 1][|word| - |suffix|..] + [word[|word| - 1]];
      }
    }
  }

  /** Any word followed by a suffix ends with it. */
  lemma {:induction false} EndsWithConcat(p: seq<cchar>, s: seq<cchar>)
    ensures EndsWith(p + s, s)
    decreases |s|
  {
    if s != [] {
      assert (p + s)[..|p + s| - 1] == p + s[..|s| - 1];
      EndsWithConcat(p, s[..|s| - 1]);
    }
  }

  /** The case endings of stem, in the order they are tried (src/turkish_stemmer.h:48-52). */
  const CASE_SUFFIXES: seq<seq<cchar>> :=
    ["nda", "nde", "dan", "den", "nin", "nun", "nan", "nen",
     "yi", "yu", "ya", "ye", "da", "de", "ta", "te"]

  /** Every case ending has two or three bytes. */
  lemma CaseSuffixLengths()
    ensures forall i | 0 <= i < |CASE_SUFFIXES| :: 2 <= |CASE_SUFFIXES[i]| <= 3
  {
  }

  /** Every case ending ends in one of the bytes a, e, i, n, u. */
  lemma CaseEndingLastBytes()
    ensures forall i | 0 <= i < |CASE_SUFFIXES| ::
      CASE_SUFFIXES[i] != [] && CASE_SUFFIXES[i][|CASE_SUFFIXES[i]| - 1] in "aeinu"
  {
  }

  /** The position of the first entry from `k` on that the word ends with. */
  function FirstSuffixFrom(word: seq<cchar>, suffixes: seq<seq<cchar>>, k: nat): (r: Option<nat>)
    requires k <= |suffixes|
    ensures r.Some? ==> k <= r.value < |suffixes| && EndsWith(word, suffixes[r.value])
    ensures r.Some? ==> forall j | k <= j < r.value :: !EndsWith(word, suffixes[j])
    ensures r.None? <==> forall j | k <= j < |suffixes| :: !EndsWith(word, suffixes[j])
    decreases |suffixes| - k
  {
    if k == |suffixes| then None
    else if EndsWith(word, suffixes[k]) then Some(k)
    else FirstSuffixFrom(word, suffixes, k + 1)
  }

  /** The position in `suffixes` of the first entry the word ends with: the
      entry the loop of stem stops at (src/turkish_stemmer.h:54-60). */
  function FirstSuffix(word: seq<cchar>, suffixes: seq<seq<cchar>>): (r: Option<nat>)
    ensures r.Some? ==> r.value < |suffixes| && EndsWith(word, suffixes[r.value])
    ensures r.Some? ==> forall j | 0 <= j < r.value :: !EndsWith(word, suffixes[j])
    ensures r.None? <==> forall j | 0 <= j < |suffixes| :: !EndsWith(word, suffixes[j])
  {
    FirstSuffixFrom(word, suffixes, 0)
  }

  /** The word without the first suffix of the list it ends with, if any. */
  function StripFirst(word: seq<cchar>, suffixes: seq<seq<cchar>>): (r: seq<cchar>)
    ensures r <= word
    ensures FirstSuffix(word, suffixes).Some? ==> |r| == |word| - |suffixes[FirstSuffix(word, suffixes).value]|
    ensures FirstSuffix(word, suffixes).None? ==> r == word
  {
    match FirstSuffix(word, suffixes)
    case None => word
    case Some(i) => EndsWithSlice(word, suffixes[i]); word[..|word| - |suffixes[i]|]
  }

  /** StripFirst removes exactly the first suffix in list order that the word
      ends with: what remains followed by it is the word again. */
  lemma StripFirstRemovesFirst(word: seq<cchar>, suffixes: seq<seq<cchar>>, i: nat)
    requires i < |suffixes| && EndsWith(word, suffixes[i])
    requires forall j | 0 <= j < i :: !EndsWith(word, suffixes[j])
    ensures FirstSuffix(word, suffixes) == Some(i)
    ensures StripFirst(word, suffixes) + suffixes[i] == word
  {
    EndsWithSlice(word, suffixes[i]);
    assert word == word[..|word| - |suffixes[i]|] + word[|word| - |suffixes[i]|..];
  }

  /** A word whose last byte no case ending has keeps every case ending it
      does not have: none of them. */
  lemma NoCaseEnding(w: seq<cchar>)
    requires w != [] && w[|w| - 1] !in "aeinu"
    ensures FirstSuffix(w, CASE_SUFFIXES) == None
  {
    CaseEndingLastBytes();
    forall j | 0 <= j < |CASE_SUFFIXES| ensures !EndsWith(w, CASE_SUFFIXES[j]) {
      var s := CASE_SUFFIXES[j];
      assert s[|s| - 1] in "aeinu";
    }
  }

  /** The test of stage one (src/turkish_stemmer.h:32). */
  predicate PluralApplies(w: seq<cchar>)
  {
    EndsWith(w, "lar") || EndsWith(w, "ler")
  }

  /** Stage one (src/turkish_stemmer.h:32-36): a trailing "lar" or "ler" goes. */
  function PluralStage(w: seq<cchar>): seq<cchar>
  {
    if PluralApplies(w) then
      EndsWithSlice(w, "lar"); EndsWithSlice(w, "ler");
      w[..|w| - 3]
    else w
  }

  /** The test of stage two (src/turkish_stemmer.h:38-40). */
  predicate PossessiveApplies(w: seq<cchar>)
  {
    |w| >= 4 && (EndsWith(w, "im") || EndsWith(w, "in") || EndsWith(w, "um") || EndsWith(w, "un"))
  }

  /** Stage two (src/turkish_stemmer.h:38-45): at length 4 or more a trailing
      "im", "in", "um" or "un" goes; remove_suffix is always given "im", which
      has the same length. */
  function PossessiveStage(w: seq<cchar>): seq<cchar>
  {
    if PossessiveApplies(w) then w[..|w| - 2] else w
  }

  /** The test of stage three (src/turkish_stemmer.h:47, 55). */
  predicate CaseApplies(w: seq<cchar>)
  {
    |w| >= 4 && FirstSuffix(w, CASE_SUFFIXES).Some?
  }

  /** Stage three (src/turkish_stemmer.h:47-61): at length 4 or more the first
      case ending in list order that the word ends with goes. */
  function CaseStage(w: seq<cchar>): seq<cchar>
  {
    if |w| < 4 then w else StripFirst(w, CASE_SUFFIXES)
  }

  /** stem (src/turkish_stemmer.h:25-64): the word it leaves and whether any
      stage removed something. */
  function StemWord(word: seq<cchar>): (r: (seq<cchar>, bool))
    ensures r.0 <= word
    ensures r.1 <==> |r.0| < |word|
    ensures |word| < 5 ==> r == (word, false)
    ensures |word| >= 5 ==> |word| - 8 <= |r.0| && r.0 != []
  {
    if |word| < 5 then (word, false)
    else
      CaseSuffixLengths();
      var w1 := PluralStage(word);
      var w2 := PossessiveStage(w1);
      var w3 := CaseStage(w2);
      (w3, PluralApplies(word) || PossessiveApplies(w1) || CaseApplies(w2))
  }

  /** stem as the three stages one after another, for a word of five bytes
      or more. */
  lemma StemWordStages(w0: seq<cchar>, w1: seq<cchar>, w2: seq<cchar>)
    requires |w0| >= 5 && w1 == PluralStage(w0) && w2 == PossessiveStage(w1)
    ensures StemWord(w0) == (CaseStage(w2), PluralApplies(w0) || PossessiveApplies(w1) || CaseApplies(w2))
  {
  }

  /** Stage one removes "lar" or "ler" exactly when the word ends with one of
      them, and nothing else. */
  lemma PluralStageRemoves(w: seq<cchar>)
    ensures PluralApplies(w) ==> PluralStage(w) + "lar" == w || PluralStage(w) + "ler" == w
    ensures !PluralApplies(w) ==> PluralStage(w) == w
  {
    if PluralApplies(w) {
      EndsWithSlice(w, "lar");
      EndsWithSlice(w, "ler");
      assert w == w[..|w| - 3] + w[|w| - 3..];
    }
  }

  /** Stage two removes one of "im", "in", "um", "un" exactly when a word of
      four bytes or more ends with it, and nothing else. */
  lemma PossessiveStageRemoves(w: seq<cchar>)
    ensures PossessiveApplies(w) ==> (|w| >= 4 &&
      (PossessiveStage(w) + "im" == w || PossessiveStage(w) + "in" == w ||
       PossessiveStage(w) + "um" == w || PossessiveStage(w) + "un" == w))
    ensures !PossessiveApplies(w) ==> PossessiveStage(w) == w
  {
    if PossessiveApplies(w) {
      EndsWithSlice(w, "im");
      EndsWithSlice(w, "in");
      EndsWithSlice(w, "um");
      EndsWithSlice(w, "un");
      assert w == w[..|w| - 2] + w[|w| - 2..];
    }
  }

  /** A word that no stage applies to is a fixed point of stem. */
  lemma NothingApplies(w: seq<cchar>)
    requires |w| >= 5 && !PluralApplies(w) && !PossessiveApplies(w)
    requires w[|w| - 1] !in "aeinu"
    ensures StemWord(w) == (w, false)
  {
    NoCaseEnding(w);
  }

  /** stem of a word that only has a plural ending, with nothing for the
      later stages to remove from the rest. */
  lemma PluralOnly(stem: seq<cchar>, plural: seq<cchar>)
    requires plural == "lar" || plural == "ler"
    requires |stem| >= 2 && !PossessiveApplies(stem) && stem[|stem| - 1] !in "aeinu"
    ensures StemWord(stem + plural) == (stem, true)
  {
    EndsWithConcat(stem, plural);
    assert (stem + plural)[..|stem + plural| - 3] == stem;
    NoCaseEnding(stem);
  }

  /** stem of a word that only has the case ending at position `i`. */
  lemma CaseOnly(stem: seq<cchar>, i: nat)
    requires i < |CASE_SUFFIXES| && |stem + CASE_SUFFIXES[i]| >= 5
    requires !PluralApplies(stem + CASE_SUFFIXES[i]) && !PossessiveApplies(stem + CASE_SUFFIXES[i])
    requires forall j | 0 <= j < i :: !EndsWith(stem + CASE_SUFFIXES[i], CASE_SUFFIXES[j])
    ensures StemWord(stem + CASE_SUFFIXES[i]) == (stem, true)
  {
    EndsWithConcat(stem, CASE_SUFFIXES[i]);
    StripFirstRemovesFirst(stem + CASE_SUFFIXES[i], CASE_SUFFIXES, i);
  }


  /** "kitaplar" loses its plural (src/test_stemmer.cpp:22). */
  lemma KitaplarExample(w: seq<cchar>)
    requires w == "kitaplar"
    ensures StemWord(w) == ("kitap", true)
  {
    assert w == "kitap" + "lar";
    PluralOnly("kitap", "lar");
  }

  /** "kitabım" is left alone: it ends in the bytes of "ım", not "im"
      (src/test_stemmer.cpp:30). */
  lemma KitabimExample(w: seq<cchar>)
    requires w == "kitab\U{C4}\U{B1}m"
    ensures StemWord(w) == (w, false)
  {
    NothingApplies(w);
  }

  /** "evden" loses "den" (src/test_stemmer.cpp:35). */
  lemma EvdenExample(w: seq<cchar>)
    requires w == "evden"
    ensures StemWord(w) == ("ev", true)
  {
    assert w == "ev" + CASE_SUFFIXES[3];
    CaseOnly("ev", 3);
  }

  /** "istanbulda" loses "da", the thirteenth case ending
      (src/test_stemmer.cpp:37). */
  lemma IstanbuldaExample(w: seq<cchar>)
    requires w == "istanbulda"
    ensures StemWord(w) == ("istanbul", true)
  {
    assert w == "istanbul" + CASE_SUFFIXES[12];
    assert !EndsWith(w, CASE_SUFFIXES[0]);
    assert !EndsWith(w, CASE_SUFFIXES[1]);
    assert !EndsWith(w, CASE_SUFFIXES[2]);
    assert !EndsWith(w, CASE_SUFFIXES[3]);
    assert !EndsWith(w, CASE_SUFFIXES[4]);
    assert !EndsWith(w, CASE_SUFFIXES[5]);
    assert !EndsWith(w, CASE_SUFFIXES[6]);
    assert !EndsWith(w, CASE_SUFFIXES[7]);
    assert !EndsWith(w, CASE_SUFFIXES[8]);
    assert !EndsWith(w, CASE_SUFFIXES[9]);
    assert !EndsWith(w, CASE_SUFFIXES[10]);
    assert !EndsWith(w, CASE_SUFFIXES[11]);
    CaseOnly("istanbul", 12);
  }

  /** "türkiyede" loses "de" (src/test_stemmer.cpp:56). */
  lemma TurkiyedeExample(w: seq<cchar>)
    requires w == "t\U{C3}\U{BC}rkiyede"
    ensures StemWord(w) == ("t\U{C3}\U{BC}rkiye", true)
  {
    assert w == "t\U{C3}\U{BC}rkiye" + CASE_SUFFIXES[13];
    assert !EndsWith(w, CASE_SUFFIXES[0]);
    assert !EndsWith(w, CASE_SUFFIXES[1]);
    assert !EndsWith(w, CASE_SUFFIXES[2]);
    assert !EndsWith(w, CASE_SUFFIXES[3]);
    assert !EndsWith(w, CASE_SUFFIXES[4]);
    assert !EndsWith(w, CASE_SUFFIXES[5]);
    assert !EndsWith(w, CASE_SUFFIXES[6]);
    assert !EndsWith(w, CASE_SUFFIXES[7]);
    assert !EndsWith(w, CASE_SUFFIXES[8]);
    assert !EndsWith(w, CASE_SUFFIXES[9]);
    assert !EndsWith(w, CASE_SUFFIXES[10]);
    assert !EndsWith(w, CASE_SUFFIXES[11]);
    assert !EndsWith(w, CASE_SUFFIXES[12]);
    CaseOnly("t\U{C3}\U{BC}rkiye", 13);
  }

  /** One call of stem takes off at most one case ending: "kitaplardan"
      loses "dan" and keeps its plural (src/test_stemmer.cpp:43). */
  lemma KitaplardanExample(w: seq<cchar>)
    requires w == "kitaplardan"
    ensures StemWord(w) == ("kitaplar", true)
  {
    assert w == "kitaplar" + CASE_SUFFIXES[2];
    CaseOnly("kitaplar", 2);
  }

  /** "tarihinde" loses "nde", which comes before "de" in the list, so one
      call leaves "tarihi" (src/test_stemmer.cpp:58). */
  lemma TarihindeExample(w: seq<cchar>)
    requires w == "tarihinde"
    ensures StemWord(w) == ("tarihi", true)
  {
    assert w == "tarihi" + CASE_SUFFIXES[1];
    CaseOnly("tarihi", 1);
  }

  /** Apply `step` at most `times` times, stopping at the first application
      that reports no change. */
  function Repeat(step: seq<cchar> -> (seq<cchar>, bool), word: seq<cchar>, times: nat): seq<cchar>
    decreases times
  {
    if times == 0 then word
    else
      var (w, modified) := step(word);
      if modified then Repeat(step, w, times - 1) else word
  }

  /** Repeating a step that only shortens words leaves a prefix, and a word
      the step leaves alone is a fixed point. */
  lemma {:induction false} RepeatPrefix(step: seq<cchar> -> (seq<cchar>, bool), word: seq<cchar>, times: nat)
    requires forall w :: step(w).0 <= w
    ensures Repeat(step, word, times) <= word
    ensures !step(word).1 ==> Repeat(step, word, times) == word
    decreases times
  {
    if times > 0 && step(word).1 {
      RepeatPrefix(step, step(word).0, times - 1);
    }
  }

  /** One more round after an application that changed the word. */
  lemma RepeatStep(step: seq<cchar> -> (seq<cchar>, bool), word: seq<cchar>, times: nat, rest: nat)
    requires times == rest + 1 && step(word).1
    ensures Repeat(step, word, times) == Repeat(step, step(word).0, rest)
  {
  }

  /** stem_aggressive (src/turkish_stemmer.h:66-70): stem at most `times`
      times, stopping at the first call that changes nothing. */
  function StemRepeated(word: seq<cchar>, times: nat): seq<cchar>
  {
    Repeat(StemWord, word, times)
  }

  /** Repeated stemming leaves a prefix of the word, and a word stem leaves
      alone is a fixed point. */
  lemma StemRepeatedPrefix(word: seq<cchar>, times: nat)
    ensures StemRepeated(word, times) <= word
    ensures !StemWord(word).1 ==> StemRepeated(word, times) == word
  {
    RepeatPrefix(StemWord, word, times);
  }

  /** One more round of stem_aggressive after a call that changed the word. */
  lemma StemRepeatedStep(word: seq<cchar>, times: nat, rest: nat)
    requires times == rest + 1 && StemWord(word).1
    ensures StemRepeated(word, times) == StemRepeated(StemWord(word).0, rest)
  {
    RepeatStep(StemWord, word, times, rest);
  }

  /** "kitaplardan" needs two calls of stem, and a third changes nothing
      (src/test_stemmer.cpp:43). */
  lemma AggressiveExample(w: seq<cchar>)
    requires w == "kitaplardan"
    ensures StemRepeated(w, 3) == "kitap"
  {
    KitaplardanExample(w);
    var w1 := StemWord(w).0;
    KitaplarExample(w1);
    var w2 := StemWord(w1).0;
    NothingApplies(w2);
    StemRepeatedStep(w, 3, 2);
    StemRepeatedStep(w1, 2, 1);
    StemRepeatedPrefix(w2, 1);
  }

  /** A buffer that holds a C string: a NUL somewhere ends the contents. */
  predicate Terminated(s: seq<byte>)
  {
    |CString(s)| < |s|
  }

  /** Writing a NUL inside the contents cuts the C string there. */
  lemma {:induction false} CutCString(s: seq<byte>, k: nat)
    requires Terminated(s) && k <= |CString(s)|
    ensures Terminated(s[k := '\0'])
    ensures CString(s[k := '\0']) == CString(s)[..k]
  {
    if k > 0 {
      CutCString(s[1..], k - 1);
      assert s[k := '\0'][1..] == s[1..][k - 1 := '\0'];
    }
  }

  /** Contents followed by a NUL: the rest of the buffer does not matter. */
  lemma {:induction false} CStringOfTerminated(p: seq<cchar>, rest: seq<byte>)
    ensures CString(p + ['\0'] + rest) == p
    ensures Terminated(p + ['\0'] + rest)
  {
    if p != [] {
      CStringOfTerminated(p[1..], rest);
      assert (p + ['\0'] + rest)[1..] == p[1..] + ['\0'] + rest;
    }
  }

  /** strlen over a buffer that holds a C string. */
  method StrLen(word: array<byte>) returns (n: nat)
    requires Terminated(word[..])
    ensures n == |CString(word[..])|
  {
    n := 0;
    while word[n] != '\0'
      invariant n <= |CString(word[..])|
      invariant CString(word[..])[..n] == word[..n]
      decreases |CString(word[..])| - n
    {
      n := n + 1;
    }
  }

  /** remove_suffix (src/turkish_stemmer.h:18-22): a NUL where the suffix
      starts. The caller has checked that the word is at least that long. */
  method RemoveSuffix(word: array<byte>, suffix: seq<cchar>)
    requires Terminated(word[..]) && |suffix| <= |CString(word[..])|
    modifies word
    ensures Terminated(word[..])
    ensures word[..] == old(word[..])[old(|CString(word[..])|) - |suffix| := '\0']
    ensures CString(word[..]) == old(CString(word[..]))[..old(|CString(word[..])|) - |suffix|]
  {
    var len := StrLen(word);
    CutCString(word[..], len - |suffix|);
    word[len - |suffix|] := '\0';
  }

  /** Every byte the stemmer changes becomes a NUL inside the old contents. */
  ghost predicate OnlyCut(before: seq<byte>, after: seq<byte>)
  {
    |after| == |before| &&
    forall i | 0 <= i < |after| :: after[i] == before[i] || (after[i] == '\0' && i < |CString(before)|)
  }

  lemma OnlyCutTransitive(a: seq<byte>, b: seq<byte>, c: seq<byte>)
    requires Terminated(a) && OnlyCut(a, b) && OnlyCut(b, c)
    requires |CString(b)| <= |CString(a)|
    ensures OnlyCut(a, c)
  {
  }

  /** The loop of stem over the case endings (src/turkish_stemmer.h:54-60):
      the first ending the word ends with is removed, and the loop stops. */
  method RemoveFirstSuffix(word: array<byte>, suffixes: seq<seq<cchar>>) returns (removed: bool)
    requires Terminated(word[..])
    modifies word
    ensures Terminated(word[..]) && OnlyCut(old(word[..]), word[..])
    ensures CString(word[..]) == StripFirst(old(CString(word[..])), suffixes)
    ensures removed <==> FirstSuffix(old(CString(word[..])), suffixes).Some?
  {
    ghost var w := CString(word[..]);
    var i := 0;
    while i < |suffixes|
      invariant i <= |suffixes| && word[..] == old(word[..])
      invariant forall j | 0 <= j < i :: !EndsWith(w, suffixes[j])
    {
      if EndsWith(CString(word[..]), suffixes[i]) {
        StripFirstRemovesFirst(w, suffixes, i);
        EndsWithSlice(w, suffixes[i]);
        RemoveSuffix(word, suffixes[i]);
        return true;
      }
      i := i + 1;
    }
    return false;
  }

  /** The plural step of stem (src/turkish_stemmer.h:32-36). */
  method RemovePlural(word: array<byte>) returns (removed: bool)
    requires Terminated(word[..])
    modifies word
    ensures Terminated(word[..]) && OnlyCut(old(word[..]), word[..])
    ensures CString(word[..]) == PluralStage(old(CString(word[..])))
    ensures removed == PluralApplies(old(CString(word[..])))
  {
    var w := CString(word[..]);
    removed := false;
    if EndsWith(w, "lar") || EndsWith(w, "ler") {
      EndsWithSlice(w, "lar");
      EndsWithSlice(w, "ler");
      RemoveSuffix(word, if EndsWith(w, "lar") then "lar" else "ler");
      removed := true;
    }
  }

  /** The possessive step of stem (src/turkish_stemmer.h:39-44), reached
      with a word of four bytes or more. */
  method RemovePossessive(word: array<byte>) returns (removed: bool)
    requires Terminated(word[..]) && |CString(word[..])| >= 4
    modifies word
    ensures Terminated(word[..]) && OnlyCut(old(word[..]), word[..])
    ensures CString(word[..]) == PossessiveStage(old(CString(word[..])))
    ensures removed == PossessiveApplies(old(CString(word[..])))
  {
    var w := CString(word[..]);
    removed := false;
    if EndsWith(w, "im") || EndsWith(w, "in") || EndsWith(w, "um") || EndsWith(w, "un") {
      RemoveSuffix(word, "im");
      removed := true;
    }
  }

  /** stem (src/turkish_stemmer.h:25-64), on the caller's buffer: the C
      string left in it and the flag returned are those StemWord gives. */
  method Stem(word: array<byte>) returns (modified: bool)
    requires Terminated(word[..])
    modifies word
    ensures Terminated(word[..]) && OnlyCut(old(word[..]), word[..])
    ensures (CString(word[..]), modified) == StemWord(old(CString(word[..])))
  {
    ghost var w0, b0 := CString(word[..]), word[..];
    var len := StrLen(word);
    if len < 5 {
      return false;
    }
    var plural := RemovePlural(word);
    len := StrLen(word);
    ghost var w1, b1 := CString(word[..]), word[..];
    var possessive := false;
    if len >= 4 {
      possessive := RemovePossessive(word);
      len := StrLen(word);
    }
    ghost var w2, b2 := CString(word[..]), word[..];
    assert w2 == PossessiveStage(w1) && possessive == PossessiveApplies(w1);
    OnlyCutTransitive(b0, b1, b2);
    var case_ := false;
    if len >= 4 {
      case_ := RemoveFirstSuffix(word, CASE_SUFFIXES);
    }
    assert CString(word[..]) == CaseStage(w2) && case_ == CaseApplies(w2);
    OnlyCutTransitive(b0, b2, word[..]);
    StemWordStages(w0, w1, w2);
    modified := plural || possessive || case_;
  }

  /** stem_aggressive (src/turkish_stemmer.h:66-70). */
  method StemAggressive(word: array<byte>)
    requires Terminated(word[..])
    modifies word
    ensures Terminated(word[..]) && OnlyCut(old(word[..]), word[..])
    ensures CString(word[..]) == StemRepeated(old(CString(word[..])), 3)
  {
    ghost var w0, b0 := CString(word[..]), word[..];
    ghost var left := 3;
    var i := 0;
    while i < 3
      invariant i <= 3 && left == 3 - i
      invariant Terminated(word[..]) && OnlyCut(b0, word[..])
      invariant CString(word[..]) <= w0
      invariant StemRepeated(CString(word[..]), left) == StemRepeated(w0, 3)
    {
      ghost var b, w := word[..], CString(word[..]);
      var changed := Stem(word);
      OnlyCutTransitive(b0, b, word[..]);
      if !changed {
        StemRepeatedPrefix(w, left);
        break;
      }
      ghost var rest := left - 1;
      StemRepeatedStep(w, left, rest);
      i := i + 1;
      left := rest;
    }
  }

  /** get_stem (src/turkish_stemmer.h:72-76): strncpy at most buffer_size - 1
      bytes of the word, which pads the rest with NULs, terminate the last
      byte, then stem the copy. A buffer of size 0 is not allowed: the size
      is unsigned and buffer_size - 1 would wrap. */
  method GetStem(word: seq<cchar>, buffer: array<byte>)
    requires buffer.Length >= 1
    modifies buffer
    ensures Terminated(buffer[..])
    ensures CString(buffer[..]) == StemWord(word[..if |word| < buffer.Length then |word| else buffer.Length - 1]).0
  {
    var n := buffer.Length - 1;
    var i := 0;
    while i < n
      invariant i <= n
      invariant forall j | 0 <= j < i :: buffer[j] == if j < |word| then word[j] else '\0'
    {
      buffer[i] := if i < |word| then word[i] else '\0';
      i := i + 1;
    }
    buffer[n] := '\0';
    var m := if |word| < buffer.Length then |word| else n;
    assert buffer[..] == word[..m] + ['\0'] + buffer[m + 1..];
    CStringOfTerminated(word[..m], buffer[m + 1..]);
    var _ := Stem(buffer);
  }
}
