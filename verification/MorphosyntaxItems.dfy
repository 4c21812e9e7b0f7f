/**
 What one morphosyntax item gets, spelled out from the request alone: which items
 share its pipeline call, which pipeline that is, and which sentence is its own.
 */
module MorphosyntaxItems {
  import opened Common
  import opened Morphosyntax

  /** The item's own language code, or the request's when it has none. */
  predicate IsInLanguage(env: Env, item: Item, lang: string) {
    lang == if item.lang == "" then env.lang else item.lang
  }

  /** The neural tokenizer takes over: asked for, a Mandarin group in a Mandarin job, and loadable. */
  predicate Retokenizes(env: Env, lang: string) {
    && env.retokenize
    && (lang == "zho" || lang == "cmn")
    && (env.lang == "zho" || env.lang == "cmn")
    && env.retok(lang).Some?
  }

  /** `group` lists, in order, the items with words in the language. */
  ghost predicate IsGroup(env: Env, items: seq<Option<Item>>, lang: string, group: seq<nat>) {
    && StrictlyIncreasing(group)
    && forall j: nat :: j in group
                   <==> j < |items| && items[j].Some? && items[j].value.words != []
                        && IsInLanguage(env, items[j].value, lang)
  }

  /** Cantonese words are segmented again when retokenizing; all others are used as they came. */
  function UsedWords(env: Env, item: Item, lang: string): seq<string> {
    if lang == "yue" && env.retokenize then env.segment(item.words) else item.words
  }

  /** The word lists of a group and the paragraphs made of them. */
  ghost predicate AreInputs(env: Env, items: seq<Option<Item>>, lang: string, group: seq<nat>,
                            words: seq<seq<string>>, texts: seq<string>)
    requires IsGroup(env, items, lang, group)
  {
    && |words| == |texts| == |group|
    && forall k :: 0 <= k < |group| ==>
         && group[k] in group
         && words[k] == UsedWords(env, items[group[k]].value, lang)
         && texts[k] == if Retokenizes(env, lang) then env.joined(words[k]) else env.textOf(words[k])
  }

  /** The call for a group: its language's pipeline, or the retokenizing one, which sees no words. */
  ghost function Called(env: Env, lang: string, words: seq<seq<string>>, texts: seq<string>): Option<seq<Sentence>> {
    var text := JoinParagraphs(texts);
    if Retokenizes(env, lang) then env.retok(lang).value(text, [])
    else if lang !in env.pipelines then None
    else env.pipelines[lang](text, if lang in env.contexts || env.lang in env.contexts then words else [])
  }

  /** What the item at place `k` of the group gets from the sentences. */
  ghost function Given(env: Env, lang: string, out: Option<seq<Sentence>>, size: nat, k: nat): Response
    requires k < size
  {
    if out.None? || |out.value| != size then Empty
    else if lang != "yue" then Analysed(out.value[k])
    else if exists j :: 0 <= j <= k && env.overridePos(out.value[j]).None? then Empty
    else
      assert env.overridePos(out.value[k]).Some?;
      Analysed(env.overridePos(out.value[k]).value)
  }

  lemma {:induction false} ItemHasPlace(env: Env, items: seq<Option<Item>>, lang: string, group: seq<nat>, j: nat)
    requires |group| == |MembersOf(env, items, lang, |items|)|
    requires forall k :: 0 <= k < |group| ==> group[k] == MembersOf(env, items, lang, |items|)[k].index
    requires Eligible(items, j) && LangOf(env, items[j].value) == lang
    ensures |MembersOf(env, items, lang, j)| < |group| && group[|MembersOf(env, items, lang, j)|] == j
  {
    PositionOfItem(env, items, j);
  }

  /** The members of a language are its group. */
  lemma {:induction false} MembersAreGroup(env: Env, items: seq<Option<Item>>, lang: string, group: seq<nat>)
    requires |group| == |MembersOf(env, items, lang, |items|)|
    requires forall k :: 0 <= k < |group| ==> group[k] == MembersOf(env, items, lang, |items|)[k].index
    ensures IsGroup(env, items, lang, group)
  {
    var ms := MembersOf(env, items, lang, |items|);
    MembersFacts(env, items, lang, |items|);
    forall j: nat
      ensures j in group
         <==> j < |items| && items[j].Some? && items[j].value.words != [] && IsInLanguage(env, items[j].value, lang)
    {
      if j in group {
        var k :| 0 <= k < |group| && group[k] == j;
        assert IsMember(env, items, lang, ms[k]);
      }
      if Eligible(items, j) && LangOf(env, items[j].value) == lang {
        ItemHasPlace(env, items, lang, group, j);
      }
    }
  }

  lemma {:induction false} MemberInputs(env: Env, items: seq<Option<Item>>, lang: string, m: Member)
    requires IsMember(env, items, lang, m)
    ensures m.words == UsedWords(env, items[m.index].value, lang) && m.text == env.textOf(m.words)
    ensures WantsRetok(env, lang) <==> Retokenizes(env, lang)
  {
  }

  lemma {:induction false} MembersGiveInputs(env: Env, items: seq<Option<Item>>, lang: string, group: seq<nat>)
    requires |group| == |MembersOf(env, items, lang, |items|)|
    requires forall k :: 0 <= k < |group| ==> group[k] == MembersOf(env, items, lang, |items|)[k].index
    requires IsGroup(env, items, lang, group)
    ensures AreInputs(env, items, lang, group, WordLists(MembersOf(env, items, lang, |items|)),
        Paragraphs(env, lang, MembersOf(env, items, lang, |items|)))
  {
    var ms := MembersOf(env, items, lang, |items|);
    MembersFacts(env, items, lang, |items|);
    forall k | 0 <= k < |group|
      ensures group[k] in group && WordLists(ms)[k] == UsedWords(env, items[group[k]].value, lang)
      ensures Paragraphs(env, lang, ms)[k]
           == if Retokenizes(env, lang) then env.joined(WordLists(ms)[k]) else env.textOf(WordLists(ms)[k])
    {
      MemberInputs(env, items, lang, ms[k]);
    }
  }

  lemma {:induction false} SameCall(env: Env, lang: string, ms: seq<Member>)
    ensures var out := Called(env, lang, WordLists(ms), Paragraphs(env, lang, ms));
            GroupSentences(env, lang, ms) == if out.Some? && |out.value| == |ms| then out else None
  {
  }

  lemma {:induction false} SameAnswer(env: Env, lang: string, sentences: seq<Sentence>, k: nat)
    requires k < |sentences|
    ensures Given(env, lang, Some(sentences), |sentences|, k)
         == if Scattered(env, lang, sentences, k) then Placed(env, lang, sentences, k) else Empty
  {
  }

  /**
   An item with words shares one call with the items of its language, made to that
   language's pipeline on their texts in order, and gets the sentence at its place.
   */
  lemma {:induction false} OutcomeSpelledOut(env: Env, items: seq<Option<Item>>, i: nat, lang: string)
    returns (group: seq<nat>, words: seq<seq<string>>, texts: seq<string>, k: nat)
    requires i < |items| && items[i].Some? && items[i].value.words != [] && IsInLanguage(env, items[i].value, lang)
    ensures IsGroup(env, items, lang, group) && AreInputs(env, items, lang, group, words, texts)
    ensures k < |group| && group[k] == i
    ensures Outcome(env, items, i) == Given(env, lang, Called(env, lang, words, texts), |group|, k)
  {
    var ms := MembersOf(env, items, lang, |items|);
    group := seq(|ms|, k requires 0 <= k < |ms| => ms[k].index);
    words, texts, k := WordLists(ms), Paragraphs(env, lang, ms), |MembersOf(env, items, lang, i)|;
    MembersAreGroup(env, items, lang, group);
    MembersGiveInputs(env, items, lang, group);
    ItemHasPlace(env, items, lang, group, i);
    SameCall(env, lang, ms);
    if GroupSentences(env, lang, ms).Some? {
      SameAnswer(env, lang, GroupSentences(env, lang, ms).value, k);
    }
  }

  /** Without a pipeline for its language an item stays empty, whatever pipelines other languages have. */
  lemma {:induction false} NoPipelineNoResult(env: Env, items: seq<Option<Item>>, i: nat, lang: string)
    requires i < |items| && items[i].Some? && items[i].value.words != [] && IsInLanguage(env, items[i].value, lang)
    requires lang !in env.pipelines && !Retokenizes(env, lang)
    ensures Outcome(env, items, i) == Empty
  {
    var group, words, texts, k := OutcomeSpelledOut(env, items, i, lang);
  }

  /** With one, and no retokenizing, it gets a sentence of that pipeline's answer or stays empty. */
  lemma {:induction false} OwnPipelineAnswers(env: Env, items: seq<Option<Item>>, i: nat, lang: string)
    returns (text: string, seen: seq<seq<string>>)
    requires i < |items| && items[i].Some? && items[i].value.words != [] && IsInLanguage(env, items[i].value, lang)
    requires lang in env.pipelines && !Retokenizes(env, lang) && lang != "yue"
    ensures var out := env.pipelines[lang](text, seen);
            Outcome(env, items, i) != Empty ==>
              out.Some? && Outcome(env, items, i).Analysed? && Outcome(env, items, i).sentence in out.value
  {
    var group, words, texts, k := OutcomeSpelledOut(env, items, i, lang);
    text := JoinParagraphs(texts);
    seen := if lang in env.contexts || env.lang in env.contexts then words else [];
  }

  // ------------------------------------------------------------- paragraphs and counts

  /** A blank line, and nothing else, stands between paragraphs. */
  lemma {:induction false} ParagraphsApart(a: seq<string>, b: seq<string>)
    requires a != [] && b != []
    ensures JoinParagraphs(a + b) == JoinParagraphs(a) + "\n\n" + JoinParagraphs(b)
  {
    assert (a + b)[1..] == a[1..] + b;
    if |a| > 1 {
      ParagraphsApart(a[1..], b);
    }
  }

  ghost function NotEmpty(results: seq<Response>): set<nat> {
    set i: nat | i < |results| && results[i] != Empty
  }

  /** Progress is the number of items that are no longer empty, failed ones included. */
  lemma {:induction false} CompletedCounts(results: seq<Response>)
    ensures Completed(results) == |NotEmpty(results)|
  {
    if results != [] {
      var n := |results| - 1;
      var init := results[..n];
      CompletedCounts(init);
      assert NotEmpty(results) == NotEmpty(init) + if results[n] != Empty then {n} else {};
    }
  }
}
