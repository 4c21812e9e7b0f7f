/**
 Batched morphosyntax: items are grouped by language, each group goes through
 its pipeline in one call, and the sentences are scattered back to the items.
 The pipelines and the Cantonese helpers are parameters that may fail.
 */
module Morphosyntax {
  import opened Common

  type Sentence = string

  datatype Item = Item(words: seq<string>, lang: string)

  datatype Response = Empty | Invalid | Analysed(sentence: Sentence)

  /**
   A pipeline call: the joined paragraphs and the words put in the tokenizer
   context (pipelines without a context ignore them); None when it raises.
   */
  type Pipeline = (string, seq<seq<string>>) -> Option<seq<Sentence>>

  /** The words the tokenizer callback realigns to; empty outside a pipeline call. */
  class TokenizerContext {
    var originalWords: seq<seq<string>>

    constructor ()
      ensures originalWords == []
    {
      originalWords := [];
    }
  }

  /** The request and what the host supplies. `textOf` joins words by spaces and strips, `joined` only joins. */
  datatype Env = Env(
    lang: string, retokenize: bool,
    segment: seq<string> -> seq<string>,
    textOf: seq<string> -> string, joined: seq<string> -> string,
    overridePos: Sentence -> Option<Sentence>,
    pipelines: map<string, Pipeline>, retok: string -> Option<Pipeline>,
    contexts: map<string, TokenizerContext>)

  // ------------------------------------------------------------- one item, one language

  predicate Eligible(items: seq<Option<Item>>, i: nat) {
    i < |items| && items[i].Some? && items[i].value.words != []
  }

  function LangOf(env: Env, item: Item): string {
    if item.lang != "" then item.lang else env.lang
  }

  function WordsOf(env: Env, item: Item): seq<string> {
    if env.retokenize && LangOf(env, item) == "yue" then env.segment(item.words) else item.words
  }

  datatype Member = Member(index: nat, text: string, words: seq<string>)

  function MemberOf(env: Env, item: Item, i: nat): Member {
    Member(i, env.textOf(WordsOf(env, item)), WordsOf(env, item))
  }

  /** The members of one language among the first `n` items, in order. */
  function MembersOf(env: Env, items: seq<Option<Item>>, lang: string, n: nat): seq<Member>
    requires n <= |items|
  {
    if n == 0 then []
    else MembersOf(env, items, lang, n - 1)
         + (if Eligible(items, n - 1) && LangOf(env, items[n - 1].value) == lang
            then [MemberOf(env, items[n - 1].value, n - 1)] else [])
  }

  predicate IsMandarin(lang: string) {
    lang == "zho" || lang == "cmn"
  }

  predicate WantsRetok(env: Env, lang: string) {
    env.retokenize && IsMandarin(lang) && IsMandarin(env.lang) && env.retok(lang).Some?
  }

  function PipelineFor(env: Env, lang: string): Option<Pipeline> {
    if WantsRetok(env, lang) then env.retok(lang)
    else if lang in env.pipelines then Some(env.pipelines[lang]) else None
  }

  /** The tokenizer context a language uses, if the pipeline tokenizes given words. */
  function ContextKey(env: Env, lang: string): Option<string> {
    if WantsRetok(env, lang) then None
    else if lang in env.contexts then Some(lang)
    else if env.lang in env.contexts then Some(env.lang) else None
  }

  function JoinParagraphs(ps: seq<string>): string {
    if ps == [] then "" else if |ps| == 1 then ps[0] else ps[0] + "\n\n" + JoinParagraphs(ps[1..])
  }

  function Paragraphs(env: Env, lang: string, members: seq<Member>): seq<string> {
    seq(|members|, k requires 0 <= k < |members| =>
      if WantsRetok(env, lang) then env.joined(members[k].words) else members[k].text)
  }

  function WordLists(members: seq<Member>): seq<seq<string>> {
    seq(|members|, k requires 0 <= k < |members| => members[k].words)
  }

  /** The sentences of a group, or none when there is no pipeline, it raises, or the count is off. */
  function GroupSentences(env: Env, lang: string, members: seq<Member>): (r: Option<seq<Sentence>>)
    ensures r.Some? ==> |r.value| == |members|
  {
    if PipelineFor(env, lang).None? then None
    else
      var out := PipelineFor(env, lang).value(JoinParagraphs(Paragraphs(env, lang, members)),
                                              if ContextKey(env, lang).Some? then WordLists(members) else []);
      if out.Some? && |out.value| == |members| then out else None
  }

  /** Cantonese sentences get their tags overridden; a raising override ends the scatter there. */
  predicate Scattered(env: Env, lang: string, sentences: seq<Sentence>, k: nat) {
    k < |sentences| && (lang == "yue" ==> forall j :: 0 <= j <= k ==> env.overridePos(sentences[j]).Some?)
  }

  function Placed(env: Env, lang: string, sentences: seq<Sentence>, k: nat): Response
    requires Scattered(env, lang, sentences, k)
  {
    Analysed(if lang == "yue" then env.overridePos(sentences[k]).value else sentences[k])
  }

  function Initial(item: Option<Item>): Response {
    if item.None? then Invalid else Empty
  }

  /** What item `i` must get: its own sentence of its language's group, when the group succeeds that far. */
  function Outcome(env: Env, items: seq<Option<Item>>, i: nat): Response
    requires i < |items|
  {
    if !Eligible(items, i) then Initial(items[i])
    else
      var lang := LangOf(env, items[i].value);
      var position := |MembersOf(env, items, lang, i)|;
      var sentences := GroupSentences(env, lang, MembersOf(env, items, lang, |items|));
      if sentences.Some? && Scattered(env, lang, sentences.value, position)
      then Placed(env, lang, sentences.value, position) else Empty
  }

  lemma {:induction false} MembersPrefix(env: Env, items: seq<Option<Item>>, lang: string, m: nat, n: nat)
    requires m <= n <= |items|
    ensures MembersOf(env, items, lang, m) <= MembersOf(env, items, lang, n)
    decreases n
  {
    if m < n {
      MembersPrefix(env, items, lang, m, n - 1);
    }
  }

  /** `m` is made from item `m.index`, which is of this language. */
  ghost predicate IsMember(env: Env, items: seq<Option<Item>>, lang: string, m: Member) {
    && Eligible(items, m.index)
    && LangOf(env, items[m.index].value) == lang
    && m == MemberOf(env, items[m.index].value, m.index)
  }

  /** Members of one language from the first `n` items, by increasing index. */
  ghost predicate AreMembers(env: Env, items: seq<Option<Item>>, lang: string, n: nat, ms: seq<Member>) {
    && (forall k :: 0 <= k < |ms| ==> ms[k].index < n && IsMember(env, items, lang, ms[k]))
    && forall j, k :: 0 <= j < k < |ms| ==> ms[j].index < ms[k].index
  }

  lemma {:induction false} AddMember(env: Env, items: seq<Option<Item>>, lang: string, n: nat, ms: seq<Member>,
                                     added: seq<Member>)
    requires n < |items| && AreMembers(env, items, lang, n, ms)
    requires added == if Eligible(items, n) && LangOf(env, items[n].value) == lang
                      then [MemberOf(env, items[n].value, n)] else []
    ensures AreMembers(env, items, lang, n + 1, ms + added)
  {
  }

  lemma {:induction false} MembersFacts(env: Env, items: seq<Option<Item>>, lang: string, n: nat)
    requires n <= |items|
    ensures AreMembers(env, items, lang, n, MembersOf(env, items, lang, n))
  {
    if n > 0 {
      MembersFacts(env, items, lang, n - 1);
      var added := if Eligible(items, n - 1) && LangOf(env, items[n - 1].value) == lang
                   then [MemberOf(env, items[n - 1].value, n - 1)] else [];
      AddMember(env, items, lang, n - 1, MembersOf(env, items, lang, n - 1), added);
    }
  }

  /** An eligible item sits in its language's group at the position given by the members before it. */
  lemma {:induction false} PositionOfItem(env: Env, items: seq<Option<Item>>, i: nat)
    requires Eligible(items, i)
    ensures var lang := LangOf(env, items[i].value);
            var ms := MembersOf(env, items, lang, |items|);
            var k := |MembersOf(env, items, lang, i)|;
            k < |ms| && ms[k] == MemberOf(env, items[i].value, i)
  {
    var lang := LangOf(env, items[i].value);
    MembersPrefix(env, items, lang, i + 1, |items|);
  }

  // ------------------------------------------------------------------- the batch loops

  ghost predicate Cleared(env: Env)
    reads env.contexts.Values
  {
    forall c :: c in env.contexts.Values ==> c.originalWords == []
  }

  /** The groups hold the members among the first `n` items, and `order` lists their languages once each. */
  ghost predicate Grouped(env: Env, items: seq<Option<Item>>, n: nat, byLang: map<string, seq<Member>>,
                          order: seq<string>)
    requires n <= |items|
  {
    && (forall lang :: MembersOf(env, items, lang, n) == if lang in byLang then byLang[lang] else [])
    && (forall lang :: lang in order <==> lang in byLang)
    && forall i, j :: 0 <= i < j < |order| ==> order[i] != order[j]
  }

  lemma {:induction false} NoMoreMembers(env: Env, items: seq<Option<Item>>, n: nat,
                                         byLang: map<string, seq<Member>>, order: seq<string>)
    requires n < |items| && !Eligible(items, n) && Grouped(env, items, n, byLang, order)
    ensures Grouped(env, items, n + 1, byLang, order)
  {
    forall lang ensures MembersOf(env, items, lang, n + 1) == MembersOf(env, items, lang, n) {
    }
  }

  /** An item's language, and its words (segmented when Cantonese is retokenized) with their text. */
  method ReadItem(env: Env, item: Item, i: nat) returns (itemLang: string, member: Member)
    ensures itemLang == LangOf(env, item) && member == MemberOf(env, item, i)
  {
    var words := item.words;
    itemLang := if item.lang != "" then item.lang else env.lang;
    if env.retokenize && itemLang == "yue" {
      words := env.segment(words);
    }
    member := Member(i, env.textOf(words), words);
  }

  /** Append a member to its language's group, opening the group if it is the language's first. */
  method AddToGroup(ghost env: Env, ghost items: seq<Option<Item>>, byLang: map<string, seq<Member>>,
                    order: seq<string>, lang: string, member: Member)
    returns (byLang': map<string, seq<Member>>, order': seq<string>)
    requires Eligible(items, member.index) && lang == LangOf(env, items[member.index].value)
    requires member == MemberOf(env, items[member.index].value, member.index)
    requires Grouped(env, items, member.index, byLang, order)
    ensures Grouped(env, items, member.index + 1, byLang', order')
  {
    byLang', order' := byLang, order;
    if lang !in byLang {
      byLang' := byLang[lang := []];
      assert forall k :: 0 <= k < |order| ==> order[k] in byLang;
      order' := order + [lang];
    }
    byLang' := byLang'[lang := byLang'[lang] + [member]];
    forall other ensures MembersOf(env, items, other, member.index + 1)
                      == MembersOf(env, items, other, member.index) + (if other == lang then [member] else []) {
    }
  }

  lemma {:induction false} GroupsInOrder(env: Env, items: seq<Option<Item>>, byLang: map<string, seq<Member>>,
                                         order: seq<string>)
    requires Grouped(env, items, |items|, byLang, order)
    ensures forall g :: 0 <= g < |order| ==>
        order[g] in byLang && byLang[order[g]] == MembersOf(env, items, order[g], |items|)
    ensures forall i :: 0 <= i < |items| && Eligible(items, i) ==> LangOf(env, items[i].value) in order
  {
    forall g | 0 <= g < |order|
      ensures order[g] in byLang && byLang[order[g]] == MembersOf(env, items, order[g], |items|)
    {
      assert order[g] in order;
    }
    forall i | 0 <= i < |items| && Eligible(items, i) ensures LangOf(env, items[i].value) in order {
      PositionOfItem(env, items, i);
    }
  }

  /** The first loop: initial responses, and the eligible items grouped by language. */
  method CollectByLanguage(env: Env, items: seq<Option<Item>>)
    returns (results: seq<Response>, byLang: map<string, seq<Member>>, order: seq<string>)
    ensures |results| == |items| && forall i :: 0 <= i < |items| ==> results[i] == Initial(items[i])
    ensures forall g :: 0 <= g < |order| ==>
        order[g] in byLang && byLang[order[g]] == MembersOf(env, items, order[g], |items|)
    ensures forall i, j :: 0 <= i < j < |order| ==> order[i] != order[j]
    ensures forall i :: 0 <= i < |items| && Eligible(items, i) ==> LangOf(env, items[i].value) in order
  {
    results, byLang, order := seq(|items|, _ => Empty), map[], [];
    for i := 0 to |items|
      invariant |results| == |items|
      invariant forall k :: 0 <= k < |items| ==> results[k] == if k < i then Initial(items[k]) else Empty
      invariant Grouped(env, items, i, byLang, order)
    {
      if !Eligible(items, i) {
        NoMoreMembers(env, items, i, byLang, order);
      }
      if items[i].None? {
        results := results[i := Invalid];
      } else if items[i].value.words != [] {
        var itemLang, member := ReadItem(env, items[i].value, i);
        byLang, order := AddToGroup(env, items, byLang, order, itemLang, member);
      }
    }
    GroupsInOrder(env, items, byLang, order);
  }

  /** One language's call: fill the context, run, clear the context, check the sentence count. */
  method RunGroup(env: Env, lang: string, members: seq<Member>) returns (sentences: Option<seq<Sentence>>)
    requires Cleared(env)
    modifies env.contexts.Values
    ensures Cleared(env)
    ensures sentences == GroupSentences(env, lang, members)
  {
    var nlp := PipelineFor(env, lang);
    if nlp.None? {
      return None;
    }
    var combined := JoinParagraphs(Paragraphs(env, lang, members));
    var key := ContextKey(env, lang);
    var seen: seq<seq<string>> := [];
    if key.Some? {
      env.contexts[key.value].originalWords := WordLists(members);
      seen := env.contexts[key.value].originalWords;
    }
    var out := nlp.value(combined, seen);
    if key.Some? {
      env.contexts[key.value].originalWords := [];
    }
    if out.Some? && |out.value| == |members| {
      return out;
    }
    return None;
  }

  method Scatter(env: Env, lang: string, members: seq<Member>, sentences: seq<Sentence>, results: seq<Response>)
    returns (results': seq<Response>)
    requires |sentences| == |members|
    requires forall k :: 0 <= k < |members| ==> members[k].index < |results|
    requires forall j, k :: 0 <= j < k < |members| ==> members[j].index < members[k].index
    ensures |results'| == |results|
    ensures forall k :: 0 <= k < |members| ==>
              results'[members[k].index]
              == if Scattered(env, lang, sentences, k) then Placed(env, lang, sentences, k)
                else results[members[k].index]
    ensures forall i :: 0 <= i < |results| && (forall k :: 0 <= k < |members| ==> members[k].index != i) ==>
        results'[i] == results[i]
  {
    results' := results;
    for k := 0 to |members|
      invariant |results'| == |results|
      invariant lang == "yue" ==> forall j :: 0 <= j < k ==> env.overridePos(sentences[j]).Some?
      invariant forall j :: 0 <= j < |members| ==>
                  results'[members[j].index]
                    == if j < k then Placed(env, lang, sentences, j) else results[members[j].index]
      invariant forall i :: 0 <= i < |results| && (forall j :: 0 <= j < |members| ==> members[j].index != i) ==>
          results'[i] == results[i]
    {
      var sent := sentences[k];
      if lang == "yue" {
        var tagged := env.overridePos(sent);
        if tagged.None? {
          assert forall j :: 0 <= j < |members| ==> (Scattered(env, lang, sentences, j) <==> j < k);
          return;
        }
        sent := tagged.value;
      }
      assert Scattered(env, lang, sentences, k);
      results' := results'[members[k].index := Analysed(sent)];
    }
  }

  /** `sum(1 for r in results if ...)`: items that are no longer empty. */
  function Completed(results: seq<Response>): (n: nat)
    ensures n <= |results|
  {
    if results == [] then 0
    else Completed(results[..|results| - 1]) + (if results[|results| - 1] == Empty then 0 else 1)
  }

  lemma {:induction false} CompletedGrows(a: seq<Response>, b: seq<Response>)
    requires |a| == |b| && forall i :: 0 <= i < |a| && a[i] != Empty ==> b[i] != Empty
    ensures Completed(a) <= Completed(b)
  {
    if a != [] {
      CompletedGrows(a[..|a| - 1], b[..|b| - 1]);
    }
  }

  /** Reports that never decrease and end at the present count. */
  ghost predicate Reported(progress: seq<nat>, done: nat) {
    && (forall i, j :: 0 <= i < j < |progress| ==> progress[i] <= progress[j])
    && (progress != [] ==> progress[|progress| - 1] == done)
  }

  /** Results once the languages in `done` have run. */
  ghost predicate PartlyDone(env: Env, items: seq<Option<Item>>, done: seq<string>, results: seq<Response>) {
    |results| == |items| && forall i :: 0 <= i < |items| ==>
      results[i]
      == if Eligible(items, i) && LangOf(env, items[i].value) in done then Outcome(env, items, i) else Initial(items[i])
  }

  /** `after` is `before` with the group's sentences placed at its members. */
  ghost predicate GroupPlaced(env: Env, lang: string, members: seq<Member>, before: seq<Response>,
                              after: seq<Response>) {
    && |after| == |before|
    && (forall k :: 0 <= k < |members| ==>
          && members[k].index < |before|
          && after[members[k].index]
             == var sentences := GroupSentences(env, lang, members);
                if sentences.Some? && Scattered(env, lang, sentences.value, k)
                then Placed(env, lang, sentences.value, k) else before[members[k].index])
    && forall i :: 0 <= i < |before| && (forall k :: 0 <= k < |members| ==> members[k].index != i) ==>
      after[i] == before[i]
  }

  lemma {:induction false} OneMoreLanguage(env: Env, items: seq<Option<Item>>, done: seq<string>, lang: string,
                        before: seq<Response>, after: seq<Response>)
    requires PartlyDone(env, items, done, before) && lang !in done
    requires GroupPlaced(env, lang, MembersOf(env, items, lang, |items|), before, after)
    ensures PartlyDone(env, items, done + [lang], after)
    ensures forall i :: 0 <= i < |items| && before[i] != Empty ==> after[i] != Empty
  {
    var ms := MembersOf(env, items, lang, |items|);
    MembersFacts(env, items, lang, |items|);
    forall i | 0 <= i < |items|
      ensures after[i] == if Eligible(items, i) && LangOf(env, items[i].value) in done + [lang]
                          then Outcome(env, items, i) else Initial(items[i])
      ensures before[i] != Empty ==> after[i] == before[i]
    {
      if Eligible(items, i) && LangOf(env, items[i].value) == lang {
        PositionOfItem(env, items, i);
      } else {
        assert forall k :: 0 <= k < |ms| ==> IsMember(env, items, lang, ms[k]) && ms[k].index != i;
      }
    }
  }

  /** Run one group and scatter its sentences, or leave the results alone when there are none. */
  method PlaceGroup(env: Env, lang: string, members: seq<Member>, before: seq<Response>) returns (after: seq<Response>)
    requires Cleared(env)
    requires forall k :: 0 <= k < |members| ==> members[k].index < |before|
    requires forall j, k :: 0 <= j < k < |members| ==> members[j].index < members[k].index
    modifies env.contexts.Values
    ensures Cleared(env)
    ensures GroupPlaced(env, lang, members, before, after)
    ensures PipelineFor(env, lang).None? ==> after == before
  {
    after := before;
    var sentences := RunGroup(env, lang, members);
    if sentences.Some? {
      after := Scatter(env, lang, members, sentences.value, before);
    }
  }

  /** Report how many items are done, unless the group was skipped. */
  method ReportProgress(progress: seq<nat>, ghost before: seq<Response>, after: seq<Response>, ran: bool)
    returns (progress': seq<nat>)
    requires |before| == |after| && forall i :: 0 <= i < |before| && before[i] != Empty ==> after[i] != Empty
    requires Reported(progress, Completed(before)) && (!ran ==> after == before)
    ensures Completed(before) <= Completed(after)
    ensures Reported(progress', Completed(after))
    ensures progress' == if ran then progress + [Completed(after)] else progress
  {
    CompletedGrows(before, after);
    progress' := if ran then progress + [Completed(after)] else progress;
  }

  /** One turn of the language loop: run the group, scatter it, and report unless the pipeline is missing. */
  method RunLanguage(env: Env, items: seq<Option<Item>>, ghost done: seq<string>, lang: string, members: seq<Member>,
                     before: seq<Response>, progress: seq<nat>)
    returns (after: seq<Response>, progress': seq<nat>)
    requires Cleared(env)
    requires PartlyDone(env, items, done, before) && lang !in done
    requires members == MembersOf(env, items, lang, |items|)
    requires Reported(progress, Completed(before))
    modifies env.contexts.Values
    ensures Cleared(env)
    ensures PartlyDone(env, items, done + [lang], after)
    ensures Completed(before) <= Completed(after)
    ensures Reported(progress', Completed(after))
    ensures progress' == if PipelineFor(env, lang).Some? then progress + [Completed(after)] else progress
  {
    MembersFacts(env, items, lang, |items|);
    after := PlaceGroup(env, lang, members, before);
    OneMoreLanguage(env, items, done, lang, before, after);
    progress' := ReportProgress(progress, before, after, PipelineFor(env, lang).Some?);
  }

  /**
   Every item gets exactly its outcome, at its own index; contexts are empty
   again; the progress reports never decrease, never exceed the item count, and
   end with the number of items that are no longer empty.
   */
  method BatchInfer(env: Env, items: seq<Option<Item>>) returns (results: seq<Response>, progress: seq<nat>)
    requires Cleared(env)
    modifies env.contexts.Values
    ensures Cleared(env)
    ensures |results| == |items| && forall i :: 0 <= i < |items| ==> results[i] == Outcome(env, items, i)
    ensures Reported(progress, Completed(results)) && Completed(results) <= |items|
  {
    var byLang, order;
    results, byLang, order := CollectByLanguage(env, items);
    progress := [];
    for g := 0 to |order|
      invariant Cleared(env)
      invariant PartlyDone(env, items, order[..g], results)
      invariant Reported(progress, Completed(results))
    {
      var lang := order[g];
      results, progress := RunLanguage(env, items, order[..g], lang, byLang[lang], results, progress);
      assert order[..g + 1] == order[..g] + [lang];
    }
    assert order[..|order|] == order;
  }

  // ------------------------------------------------------------ sentence-wise pipelines

  /** A paragraph the joined text can be cut back to. */
  predicate CleanParagraph(p: string) {
    p != "" && '\n' !in p
  }

  predicate CleanParagraphs(ps: seq<string>) {
    forall k :: 0 <= k < |ps| ==> CleanParagraph(ps[k])
  }

  /** The first newline of joined clean paragraphs ends the first paragraph. */
  lemma FirstBreak(ps: seq<string>)
    requires CleanParagraphs(ps) && ps != []
    ensures ps[0] <= JoinParagraphs(ps)
    ensures forall k :: 0 <= k < |ps[0]| ==> JoinParagraphs(ps)[k] != '\n'
    ensures |ps| == 1 <==> '\n' !in JoinParagraphs(ps)
    ensures |ps| > 1 ==> |ps[0]| + 2 <= |JoinParagraphs(ps)| && JoinParagraphs(ps)[|ps[0]|] == '\n'
                         && JoinParagraphs(ps)[|ps[0]| + 2..] == JoinParagraphs(ps[1..])
  {
    assert forall k :: 0 <= k < |ps[0]| ==> JoinParagraphs(ps)[k] == ps[0][k];
    if |ps| > 1 {
      assert JoinParagraphs(ps)[|ps[0]|] == '\n';
    }
  }

  /** Clean paragraphs can be cut back from the joined text, so sentence-wise pipelines make sense. */
  lemma {:induction false} JoinIsInjective(a: seq<string>, b: seq<string>)
    requires CleanParagraphs(a) && CleanParagraphs(b) && a != [] && b != []
    requires JoinParagraphs(a) == JoinParagraphs(b)
    ensures a == b
    decreases |a|
  {
    FirstBreak(a);
    FirstBreak(b);
    if |a| > 1 {
      var t := JoinParagraphs(a);
      assert a[0] == t[..|a[0]|] && b[0] == t[..|b[0]|];
      assert |a[0]| == |b[0]|;
      JoinIsInjective(a[1..], b[1..]);
      assert a == [a[0]] + a[1..] && b == [b[0]] + b[1..];
    }
  }

  /** The pipeline analyses each clean paragraph by itself, given its words. */
  ghost predicate SentenceWise(run: Pipeline, usesContext: bool, analyse: (string, seq<string>) -> Sentence) {
    forall ps: seq<string>, ws: seq<seq<string>> :: |ps| == |ws| && ps != [] && CleanParagraphs(ps) ==>
      run(JoinParagraphs(ps), if usesContext then ws else [])
        == Some(seq(|ps|, k requires 0 <= k < |ps| => analyse(ps[k], if usesContext then ws[k] else [])))
  }

  /** Item `i` processed in a batch of its own. */
  function Alone(env: Env, items: seq<Option<Item>>, i: nat): Response
    requires i < |items|
  {
    Outcome(env, [items[i]], 0)
  }

  lemma GroupIsSentenceWise(env: Env, lang: string, members: seq<Member>, analyse: (string, seq<string>) -> Sentence)
    requires PipelineFor(env, lang).Some? && members != []
    requires SentenceWise(PipelineFor(env, lang).value, ContextKey(env, lang).Some?, analyse)
    requires CleanParagraphs(Paragraphs(env, lang, members))
    ensures GroupSentences(env, lang, members).Some?
    ensures forall k :: 0 <= k < |members| ==>
              GroupSentences(env, lang, members).value[k]
              == analyse(Paragraphs(env, lang, members)[k],
                         if ContextKey(env, lang).Some? then members[k].words else [])
  {
    var ps, ws := Paragraphs(env, lang, members), WordLists(members);
    assert |ps| == |ws| && ps != [];
  }

  /** The batch setting in which an item's language behaves. */
  ghost predicate WellBehaved(env: Env, lang: string, members: seq<Member>,
                              analyse: (string, seq<string>) -> Sentence) {
    && PipelineFor(env, lang).Some?
    && SentenceWise(PipelineFor(env, lang).value, ContextKey(env, lang).Some?, analyse)
    && CleanParagraphs(Paragraphs(env, lang, members))
    && (lang == "yue" ==> forall s :: env.overridePos(s).Some?)
  }

  /** What a well-behaved group gives its k-th member depends on that member only. */
  lemma PlacedInGroup(env: Env, lang: string, members: seq<Member>, k: nat, analyse: (string, seq<string>) -> Sentence)
    requires WellBehaved(env, lang, members, analyse) && k < |members|
    ensures var sentences := GroupSentences(env, lang, members);
            && sentences.Some? && Scattered(env, lang, sentences.value, k)
            && var raw := analyse(Paragraphs(env, lang, members)[k],
                                  if ContextKey(env, lang).Some? then members[k].words else []);
               Placed(env, lang, sentences.value, k)
               == Analysed(if lang == "yue" then env.overridePos(raw).value else raw)
  {
    GroupIsSentenceWise(env, lang, members, analyse);
  }

  lemma AloneGroup(env: Env, item: Item)
    requires item.words != []
    ensures MembersOf(env, [Some(item)], LangOf(env, item), 1) == [MemberOf(env, item, 0)]
    ensures MembersOf(env, [Some(item)], LangOf(env, item), 0) == []
  {
  }

  /**
   When an item's language has a sentence-wise pipeline, its group's texts are
   clean paragraphs and tag overriding does not fail, batching changes nothing:
   the item gets what it would get alone.
   */
  lemma BatchEqualsAlone(env: Env, items: seq<Option<Item>>, i: nat, analyse: (string, seq<string>) -> Sentence)
    requires Eligible(items, i)
    requires WellBehaved(env, LangOf(env, items[i].value),
        MembersOf(env, items, LangOf(env, items[i].value), |items|), analyse)
    ensures Outcome(env, items, i) == Alone(env, items, i) && Outcome(env, items, i).Analysed?
  {
    var item := items[i].value;
    var lang := LangOf(env, item);
    var ms, one := MembersOf(env, items, lang, |items|), [MemberOf(env, item, 0)];
    var k := |MembersOf(env, items, lang, i)|;
    PositionOfItem(env, items, i);
    AloneGroup(env, item);
    assert Paragraphs(env, lang, one)[0] == Paragraphs(env, lang, ms)[k];
    PlacedInGroup(env, lang, ms, k, analyse);
    PlacedInGroup(env, lang, one, 0, analyse);
    assert [items[i]] == [Some(item)];
  }

  lemma {:induction false} SameMembers(env: Env, other: Env, items: seq<Option<Item>>, lang: string, n: nat)
    requires n <= |items|
    requires other == env.(pipelines := other.pipelines, retok := other.retok)
    ensures MembersOf(env, items, lang, n) == MembersOf(other, items, lang, n)
  {
    if n > 0 {
      SameMembers(env, other, items, lang, n - 1);
    }
  }

  lemma SameGroupSentences(env: Env, other: Env, lang: string, members: seq<Member>)
    requires other == env.(pipelines := other.pipelines, retok := other.retok)
    requires WantsRetok(env, lang) == WantsRetok(other, lang) && PipelineFor(env, lang) == PipelineFor(other, lang)
    ensures GroupSentences(env, lang, members) == GroupSentences(other, lang, members)
  {
    assert Paragraphs(env, lang, members) == Paragraphs(other, lang, members);
  }

  /**
   An item's outcome depends on its own language's pipelines only: all others,
   that of the request's language included, can be swapped, added or taken away.
   */
  lemma {:induction false} OtherLanguagesDoNotMatter(env: Env, other: Env, items: seq<Option<Item>>, i: nat,
                                                     lang: string)
    requires Eligible(items, i)
    requires lang == if items[i].value.lang == "" then env.lang else items[i].value.lang
    requires other == env.(pipelines := other.pipelines, retok := other.retok)
    requires lang in env.pipelines <==> lang in other.pipelines
    requires lang in env.pipelines ==> env.pipelines[lang] == other.pipelines[lang]
    requires env.retok(lang) == other.retok(lang)
    ensures Outcome(env, items, i) == Outcome(other, items, i)
  {
    SameMembers(env, other, items, lang, i);
    SameMembers(env, other, items, lang, |items|);
    SameGroupSentences(env, other, lang, MembersOf(env, items, lang, |items|));
  }
}
