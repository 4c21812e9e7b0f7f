/**
 Coreference over CHAT files: the single-file path and the cross-file batch
 path, and when they give each file the same annotations and status. Parsing,
 validation and the worker are parameters.
 */
module Coref {
  import opened Common

  // ---------------------------------------------------------------------- CHAT files

  datatype Line =
    | Utterance(words: seq<string>, xcoref: Option<string>, rest: string)
    | Provenance(text: string)    // the comment header a coref run leaves
    | Other(text: string)

  type ChatFile = seq<Line>

  /** The line-level operations this orchestration relies on. */
  datatype Chat = Chat(
    parse: string -> (ChatFile, nat),
    isDummy: ChatFile -> bool,
    validate: (ChatFile, nat) -> Option<string>,   // the pre-validation error, if any
    hasEnglish: ChatFile -> bool,
    headerEnd: ChatFile -> nat)                    // where a provenance comment goes

  datatype Annotation = Annotation(sentence: nat, text: string)

  /** One document's answer: an error, or bracket annotations by sentence. */
  datatype ItemResult = ItemResult(error: Option<string>, annotations: seq<Annotation>)

  type Document = seq<seq<string>>

  /** The worker call for a list of documents. */
  type Worker = seq<Document> -> Result<seq<ItemResult>, string>

  // ------------------------------------------------------- collecting and annotating

  function Sentences(file: ChatFile, n: nat): Document
    requires n <= |file|
  {
    if n == 0 then []
    else Sentences(file, n - 1)
         + (if file[n - 1].Utterance? && file[n - 1].words != [] then [file[n - 1].words] else [])
  }

  /** `SentenceLines(file, n)[k]` is the line of sentence k. */
  function SentenceLines(file: ChatFile, n: nat): (ls: seq<nat>)
    requires n <= |file|
    ensures |ls| == |Sentences(file, n)|
    ensures forall k :: 0 <= k < |ls| ==> ls[k] < n
    ensures forall j, k :: 0 <= j < k < |ls| ==> ls[j] < ls[k]
  {
    if n == 0 then []
    else SentenceLines(file, n - 1)
         + (if file[n - 1].Utterance? && file[n - 1].words != [] then [n - 1] else [])
  }

  /** Sentence `k` is the words of the utterance at line `SentenceLines(..)[k]`. */
  ghost predicate IsSentence(file: ChatFile, n: nat, k: int)
    requires n <= |file| && 0 <= k < |Sentences(file, n)|
  {
    var line := file[SentenceLines(file, n)[k]];
    line.Utterance? && line.words != [] && Sentences(file, n)[k] == line.words
  }

  lemma {:induction false} SentenceIsUtterance(file: ChatFile, n: nat, k: nat)
    requires n <= |file| && k < |Sentences(file, n)|
    ensures IsSentence(file, n, k)
  {
    if k < |Sentences(file, n - 1)| {
      SentenceIsUtterance(file, n - 1, k);
    }
  }

  lemma {:induction false} UtteranceIsSentence(file: ChatFile, n: nat, i: nat)
    requires i < n <= |file| && file[i].Utterance? && file[i].words != []
    ensures i in SentenceLines(file, n)
    decreases n
  {
    if i < n - 1 {
      UtteranceIsSentence(file, n - 1, i);
    }
  }

  /** The sentences are the words of the utterances with words, and every such utterance is one. */
  lemma {:induction false} SentencesAreUtterances(file: ChatFile, n: nat)
    requires n <= |file|
    ensures forall k :: 0 <= k < |Sentences(file, n)| ==> IsSentence(file, n, k)
    ensures forall i :: 0 <= i < n && file[i].Utterance? && file[i].words != [] ==> i in SentenceLines(file, n)
  {
    forall k | 0 <= k < |Sentences(file, n)| ensures IsSentence(file, n, k) {
      SentenceIsUtterance(file, n, k);
    }
    forall i | 0 <= i < n && file[i].Utterance? && file[i].words != [] ensures i in SentenceLines(file, n) {
      UtteranceIsSentence(file, n, i);
    }
  }

  method CollectPayloads(file: ChatFile) returns (document: Document, lines: seq<nat>)
    ensures document == Sentences(file, |file|) && lines == SentenceLines(file, |file|)
  {
    document, lines := [], [];
    for i := 0 to |file|
      invariant document == Sentences(file, i) && lines == SentenceLines(file, i)
    {
      if file[i].Utterance? && file[i].words != [] {
        document, lines := document + [file[i].words], lines + [i];
      }
    }
  }

  /** The last annotation for each line, dropping sentence numbers out of range. */
  function LineNotes(annotations: seq<Annotation>, lines: seq<nat>): map<nat, string> {
    if annotations == [] then map[]
    else
      var before := LineNotes(annotations[..|annotations| - 1], lines);
      var a := annotations[|annotations| - 1];
      if a.sentence < |lines| then before[lines[a.sentence] := a.text] else before
  }

  predicate Names(a: Annotation, lines: seq<nat>, line: nat) {
    a.sentence < |lines| && lines[a.sentence] == line
  }

  /** Annotation `i` is the last one that names the line. */
  ghost predicate IsLastNote(annotations: seq<Annotation>, lines: seq<nat>, line: nat, i: int) {
    && 0 <= i < |annotations|
    && Names(annotations[i], lines, line)
    && forall j :: i < j < |annotations| ==> !Names(annotations[j], lines, line)
  }

  /** A line is mapped to the text of the last annotation that names it. */
  lemma {:induction false} LastNoteWins(annotations: seq<Annotation>, lines: seq<nat>, line: nat, i: nat)
    requires IsLastNote(annotations, lines, line, i)
    ensures line in LineNotes(annotations, lines) && LineNotes(annotations, lines)[line] == annotations[i].text
  {
    var n := |annotations| - 1;
    if i < n {
      assert !Names(annotations[n], lines, line);
      assert IsLastNote(annotations[..n], lines, line, i);
      LastNoteWins(annotations[..n], lines, line, i);
    }
  }

  /** A line that no annotation of a known sentence names is not mapped. */
  lemma {:induction false} UnnamedLineHasNoNote(annotations: seq<Annotation>, lines: seq<nat>, line: nat)
    requires forall i :: 0 <= i < |annotations| ==> !Names(annotations[i], lines, line)
    ensures line !in LineNotes(annotations, lines)
  {
    if annotations != [] {
      var n := |annotations| - 1;
      assert !Names(annotations[n], lines, line);
      UnnamedLineHasNoNote(annotations[..n], lines, line);
    }
  }

  method BuildLineNotes(annotations: seq<Annotation>, lines: seq<nat>) returns (notes: map<nat, string>)
    ensures notes == LineNotes(annotations, lines)
  {
    notes := map[];
    for i := 0 to |annotations|
      invariant notes == LineNotes(annotations[..i], lines)
    {
      assert annotations[..i + 1][..i] == annotations[..i];
      if annotations[i].sentence < |lines| {
        notes := notes[lines[annotations[i].sentence] := annotations[i].text];
      }
    }
    assert annotations[..|annotations|] == annotations;
  }

  /** A line with its note; empty notes and non-utterances change nothing. */
  function Annotated(line: Line, note: Option<string>): Line {
    if note.Some? && note.value != "" && line.Utterance? then line.(xcoref := note) else line
  }

  function Apply(file: ChatFile, notes: map<nat, string>): ChatFile {
    seq(|file|, i requires 0 <= i < |file| => Annotated(file[i], if i in notes then Some(notes[i]) else None))
  }

  /** `apply_coref_results`, visiting the map in any order. */
  method ApplyResults(file: ChatFile, notes: map<nat, string>) returns (r: ChatFile)
    ensures r == Apply(file, notes)
  {
    r := file;
    var left := notes.Keys;
    while left != {}
      invariant left <= notes.Keys && |r| == |file|
      invariant forall i :: 0 <= i < |file| ==>
                  r[i] == Annotated(file[i], if i in notes && i !in left then Some(notes[i]) else None)
      decreases left
    {
      var line :| line in left;
      left := left - {line};
      if line < |r| && r[line].Utterance? && notes[line] != "" {
        r := r[line := r[line].(xcoref := Some(notes[line]))];
      }
    }
  }

  // --------------------------------------------------------------------- provenance

  function WithoutProvenance(file: ChatFile): ChatFile {
    if file == [] then []
    else WithoutProvenance(file[..|file| - 1]) + (if file[|file| - 1].Provenance? then [] else [file[|file| - 1]])
  }

  /** Drop earlier comments of this command and insert the new one. */
  function WithProvenance(chat: Chat, file: ChatFile, comment: string): ChatFile {
    var stripped := WithoutProvenance(file);
    var at := Min(chat.headerEnd(stripped), |stripped|);
    stripped[..at] + [Provenance(comment)] + stripped[at..]
  }

  lemma {:induction false} StripAppend(a: ChatFile, b: ChatFile)
    ensures WithoutProvenance(a + b) == WithoutProvenance(a) + WithoutProvenance(b)
  {
    if b == [] {
      assert a + b == a;
    } else {
      assert (a + b)[..|a + b| - 1] == a + b[..|b| - 1];
      StripAppend(a, b[..|b| - 1]);
    }
  }

  lemma {:induction false} StripTwice(file: ChatFile)
    ensures WithoutProvenance(WithoutProvenance(file)) == WithoutProvenance(file)
  {
    if file != [] {
      StripTwice(file[..|file| - 1]);
      var last := if file[|file| - 1].Provenance? then [] else [file[|file| - 1]];
      StripAppend(WithoutProvenance(file[..|file| - 1]), last);
      assert last != [] ==> last[..0] == [];
    }
  }

  lemma {:induction false} StripInserted(file: ChatFile, at: nat, comment: string)
    requires at <= |file|
    ensures WithoutProvenance(file[..at] + [Provenance(comment)] + file[at..]) == WithoutProvenance(file)
  {
    StripAppend(file[..at] + [Provenance(comment)], file[at..]);
    StripAppend(file[..at], [Provenance(comment)]);
    StripAppend(file[..at], file[at..]);
    assert file == file[..at] + file[at..];
  }

  /** Adding provenance changes nothing but provenance. */
  lemma {:induction false} ProvenanceIsInvisible(chat: Chat, file: ChatFile, comment: string)
    ensures WithoutProvenance(WithProvenance(chat, file, comment)) == WithoutProvenance(file)
  {
    var stripped := WithoutProvenance(file);
    StripInserted(stripped, Min(chat.headerEnd(stripped), |stripped|), comment);
    StripTwice(file);
  }

  lemma {:induction false} NoneLeft(file: ChatFile)
    ensures forall i :: 0 <= i < |WithoutProvenance(file)| ==> !WithoutProvenance(file)[i].Provenance?
  {
    if file != [] {
      NoneLeft(file[..|file| - 1]);
    }
  }

  /** There is one provenance comment afterwards, the new one, right behind the headers. */
  lemma {:induction false} OneProvenance(chat: Chat, file: ChatFile, comment: string)
    ensures var r := WithProvenance(chat, file, comment);
            var at := Min(chat.headerEnd(WithoutProvenance(file)), |r| - 1);
            && 0 <= at < |r| && r[at] == Provenance(comment)
            && forall i :: 0 <= i < |r| && r[i].Provenance? ==> i == at
  {
    NoneLeft(file);
  }

  // ------------------------------------------------------------------------ the worker

  /** Annotations of one item; an item error means none. */
  function Answer(r: ItemResult): seq<Annotation> {
    if r.error.Some? then [] else r.annotations
  }

  function Answers(rs: seq<ItemResult>): seq<seq<Annotation>> {
    seq(|rs|, i requires 0 <= i < |rs| => Answer(rs[i]))
  }

  /** The answers, unless the call fails or the item count is off. */
  function Inferred(worker: Worker, items: seq<Document>): (r: Result<seq<seq<Annotation>>, string>)
    ensures r.Ok? ==> |r.value| == |items|
  {
    var reply := worker(items);
    if reply.Err? then Err(reply.error)
    else if |reply.value| != |items| then Err("item count mismatch")
    else Ok(Answers(reply.value))
  }

  method InferBatch(worker: Worker, items: seq<Document>) returns (r: Result<seq<seq<Annotation>>, string>)
    ensures r == Inferred(worker, items)
    ensures r.Ok? <==> worker(items).Ok? && |worker(items).value| == |items|
    ensures r.Ok? ==>
              |r.value| == |items|
              && forall i :: 0 <= i < |items| ==>
                   r.value[i] == if worker(items).value[i].error.Some? then [] else worker(items).value[i].annotations
  {
    var response := worker(items);
    if response.Err? {
      return Err(response.error);
    }
    if |response.value| != |items| {
      return Err("item count mismatch");
    }
    var responses := [];
    for i := 0 to |items|
      invariant responses == Answers(response.value[..i])
    {
      if response.value[i].error.Some? {
        responses := responses + [[]];
      } else {
        responses := responses + [response.value[i].annotations];
      }
    }
    assert response.value[..|items|] == response.value;
    return Ok(responses);
  }

  // --------------------------------------------------------------------- the two paths

  /** What happens to a parsed file before inference. */
  datatype Gate = PassThrough | Rejected(error: string) | Eligible

  function GateOf(chat: Chat, text: string): Gate {
    var (file, errors) := chat.parse(text);
    if chat.isDummy(file) then PassThrough
    else if chat.validate(file, errors).Some? then Rejected(chat.validate(file, errors).value)
    else if !chat.hasEnglish(file) || Sentences(file, |file|) == [] then PassThrough
    else Eligible
  }

  /**
   A file is rejected with its error if it is real and invalid, and takes part if
   it is real, valid, has English and an utterance with words.
   */
  lemma {:induction false} GateCases(chat: Chat, text: string, error: string)
    ensures var (file, errors) := chat.parse(text);
            var given, invalid := !chat.isDummy(file), chat.validate(file, errors);
            && (GateOf(chat, text) == Rejected(error) <==> given && invalid == Some(error))
            && (GateOf(chat, text).Eligible?
                <==> && given && invalid.None? && chat.hasEnglish(file)
                     && exists i :: 0 <= i < |file| && file[i].Utterance? && file[i].words != [])
  {
    var file := chat.parse(text).0;
    SentencesAreUtterances(file, |file|);
    if Sentences(file, |file|) != [] {
      assert IsSentence(file, |file|, 0);
    }
  }

  function Parsed(chat: Chat, text: string): ChatFile {
    chat.parse(text).0
  }

  function DocumentOf(chat: Chat, text: string): Document {
    Sentences(Parsed(chat, text), |Parsed(chat, text)|)
  }

  /** The file annotated with one document's answer. */
  function Resolved(chat: Chat, text: string, annotations: seq<Annotation>): ChatFile {
    var file := Parsed(chat, text);
    Apply(file, LineNotes(annotations, SentenceLines(file, |file|)))
  }

  /** The result of one file by itself. */
  function SingleResult(chat: Chat, worker: Worker, text: string, comment: string): Result<ChatFile, string> {
    match GateOf(chat, text)
    case PassThrough => Ok(Parsed(chat, text))
    case Rejected(error) => Err(error)
    case Eligible =>
      var reply := Inferred(worker, [DocumentOf(chat, text)]);
      if reply.Err? then Err(reply.error)
      else Ok(WithProvenance(chat, Resolved(chat, text, reply.value[0]), comment))
  }

  method RunSingle(chat: Chat, worker: Worker, text: string, comment: string) returns (r: Result<ChatFile, string>)
    ensures r == SingleResult(chat, worker, text, comment)
  {
    var (file, errors) := chat.parse(text);
    if chat.isDummy(file) {
      return Ok(file);
    }
    var invalid := chat.validate(file, errors);
    if invalid.Some? {
      return Err(invalid.value);
    }
    if !chat.hasEnglish(file) {
      return Ok(file);
    }
    var document, lines := CollectPayloads(file);
    if document == [] {
      return Ok(file);
    }
    var replies := InferBatch(worker, [document]);
    if replies.Err? {
      return Err(replies.error);
    }
    var notes := BuildLineNotes(replies.value[|replies.value| - 1], lines);
    var annotated := ApplyResults(file, notes);
    return Ok(WithProvenance(chat, annotated, comment));
  }

  /** Documents of the eligible files among the first `n`, in order. */
  function BatchItems(chat: Chat, texts: seq<string>, n: nat): seq<Document>
    requires n <= |texts|
  {
    if n == 0 then []
    else BatchItems(chat, texts, n - 1)
         + (if GateOf(chat, texts[n - 1]).Eligible? then [DocumentOf(chat, texts[n - 1])] else [])
  }

  lemma {:induction false} BatchItemsPrefix(chat: Chat, texts: seq<string>, m: nat, n: nat)
    requires m <= n <= |texts|
    ensures BatchItems(chat, texts, m) <= BatchItems(chat, texts, n)
    decreases n
  {
    if m < n {
      BatchItemsPrefix(chat, texts, m, n - 1);
    }
  }

  /** An eligible file's document is in the batch right after those of the eligible files before it. */
  lemma BatchPlace(chat: Chat, texts: seq<string>, k: nat)
    requires k < |texts| && GateOf(chat, texts[k]).Eligible?
    ensures var place := |BatchItems(chat, texts, k)|;
            place < |BatchItems(chat, texts, |texts|)|
            && BatchItems(chat, texts, |texts|)[place] == DocumentOf(chat, texts[k])
  {
    BatchItemsPrefix(chat, texts, k + 1, |texts|);
  }

  /** The result of file `k` in a batch, given the answers to the batched call. */
  function BatchResult(chat: Chat, texts: seq<string>, k: nat, answers: seq<seq<Annotation>>): Result<ChatFile, string>
    requires k < |texts| && |answers| == |BatchItems(chat, texts, |texts|)|
  {
    match GateOf(chat, texts[k])
    case PassThrough => Ok(Parsed(chat, texts[k]))
    case Rejected(error) => Err(error)
    case Eligible =>
      BatchPlace(chat, texts, k);
      Ok(Resolved(chat, texts[k], answers[|BatchItems(chat, texts, k)|]))
  }

  datatype FileInput = FileInput(filename: string, text: string)

  datatype FileResult = FileResult(filename: string, outcome: Result<ChatFile, string>)

  function Texts(files: seq<FileInput>): seq<string> {
    seq(|files|, i requires 0 <= i < |files| => files[i].text)
  }

  datatype CorefInfo = CorefInfo(file: nat, lines: seq<nat>, place: nat)

  /** Eligible files so far, with their sentence lines and places in the batch. */
  ghost predicate InfosFor(chat: Chat, texts: seq<string>, n: nat, infos: seq<CorefInfo>)
    requires n <= |texts|
  {
    && (forall e :: 0 <= e < |infos| ==>
          && infos[e].file < n
          && GateOf(chat, texts[infos[e].file]).Eligible?
          && infos[e].place == |BatchItems(chat, texts, infos[e].file)|
          && infos[e].lines == SentenceLines(Parsed(chat, texts[infos[e].file]), |Parsed(chat, texts[infos[e].file])|))
    && (forall d, e :: 0 <= d < e < |infos| ==> infos[d].file < infos[e].file)
    && forall k :: 0 <= k < n && GateOf(chat, texts[k]).Eligible? ==> exists e :: 0 <= e < |infos| && infos[e].file == k
  }

  method ParseAll(chat: Chat, texts: seq<string>) returns (parsed: seq<ChatFile>, counts: seq<nat>)
    ensures |parsed| == |counts| == |texts|
    ensures forall k :: 0 <= k < |texts| ==> (parsed[k], counts[k]) == chat.parse(texts[k])
  {
    parsed, counts := [], [];
    for i := 0 to |texts|
      invariant |parsed| == |counts| == i
      invariant forall k :: 0 <= k < i ==> (parsed[k], counts[k]) == chat.parse(texts[k])
    {
      var (file, errors) := chat.parse(texts[i]);
      parsed, counts := parsed + [file], counts + [errors];
    }
  }

  /** What the gate loop records for one file. */
  method GateFile(chat: Chat, text: string, file: ChatFile, errors: nat)
    returns (rejection: Option<string>, payload: Option<(Document, seq<nat>)>)
    requires (file, errors) == chat.parse(text)
    ensures rejection == if GateOf(chat, text).Rejected? then Some(GateOf(chat, text).error) else None
    ensures payload
        == if GateOf(chat, text).Eligible? then Some((DocumentOf(chat, text), SentenceLines(file, |file|))) else None
  {
    if chat.isDummy(file) {
      return None, None;
    }
    var invalid := chat.validate(file, errors);
    if invalid.Some? || !chat.hasEnglish(file) {
      return invalid, None;
    }
    var document, lines := CollectPayloads(file);
    return None, if document == [] then None else Some((document, lines));
  }

  lemma AddInfo(chat: Chat, texts: seq<string>, n: nat, infos: seq<CorefInfo>, info: CorefInfo)
    requires n < |texts| && InfosFor(chat, texts, n, infos) && GateOf(chat, texts[n]).Eligible?
    requires info
        == CorefInfo(n, SentenceLines(Parsed(chat, texts[n]), |Parsed(chat, texts[n])|), |BatchItems(chat, texts, n)|)
    ensures InfosFor(chat, texts, n + 1, infos + [info])
  {
    var more := infos + [info];
    assert more[|infos|] == info;
    forall k | 0 <= k < n + 1 && GateOf(chat, texts[k]).Eligible?
      ensures exists e :: 0 <= e < |more| && more[e].file == k
    {
      if k < n {
        var e :| 0 <= e < |infos| && infos[e].file == k;
        assert more[e].file == k;
      }
    }
  }

  /** Item `e` of the batch is the document of the `e`-th eligible file. */
  ghost predicate AreInOrder(chat: Chat, texts: seq<string>, infos: seq<CorefInfo>, items: seq<Document>) {
    && |items| == |infos|
    && forall e :: 0 <= e < |infos| ==>
         infos[e].place == e && infos[e].file < |texts| && items[e] == DocumentOf(chat, texts[infos[e].file])
  }

  lemma {:induction false} AddItem(chat: Chat, texts: seq<string>, infos: seq<CorefInfo>, items: seq<Document>,
                                   info: CorefInfo, document: Document)
    requires AreInOrder(chat, texts, infos, items)
    requires info.place == |items| && info.file < |texts| && document == DocumentOf(chat, texts[info.file])
    ensures AreInOrder(chat, texts, infos + [info], items + [document])
  {
  }

  /** The rejections of the first `n` files. */
  ghost predicate AreRejections(chat: Chat, texts: seq<string>, n: nat, rejections: seq<Option<string>>)
    requires n <= |texts|
  {
    && |rejections| == n
    && forall k :: 0 <= k < n ==>
         rejections[k] == if GateOf(chat, texts[k]).Rejected? then Some(GateOf(chat, texts[k]).error) else None
  }

  /** What the gate loop has gathered from the first `n` files. */
  ghost predicate Prepared(chat: Chat, texts: seq<string>, n: nat, infos: seq<CorefInfo>, items: seq<Document>,
                           rejections: seq<Option<string>>)
    requires n <= |texts|
  {
    && items == BatchItems(chat, texts, n)
    && AreRejections(chat, texts, n, rejections)
    && InfosFor(chat, texts, n, infos)
    && AreInOrder(chat, texts, infos, items)
  }

  lemma {:induction false} OneMoreRejection(chat: Chat, texts: seq<string>, n: nat, rejections: seq<Option<string>>,
                                            rejection: Option<string>)
    requires n < |texts| && AreRejections(chat, texts, n, rejections)
    requires rejection == if GateOf(chat, texts[n]).Rejected? then Some(GateOf(chat, texts[n]).error) else None
    ensures AreRejections(chat, texts, n + 1, rejections + [rejection])
  {
  }

  lemma {:induction false} NoInfo(chat: Chat, texts: seq<string>, n: nat, infos: seq<CorefInfo>,
                                  items: seq<Document>)
    requires n < |texts| && InfosFor(chat, texts, n, infos) && items == BatchItems(chat, texts, n)
    requires !GateOf(chat, texts[n]).Eligible?
    ensures InfosFor(chat, texts, n + 1, infos) && items == BatchItems(chat, texts, n + 1)
  {
  }

  /** One turn of the gate loop. */
  method PrepareFile(chat: Chat, texts: seq<string>, i: nat, file: ChatFile, errors: nat, infos: seq<CorefInfo>,
                     items: seq<Document>, rejections: seq<Option<string>>)
    returns (infos': seq<CorefInfo>, items': seq<Document>, rejections': seq<Option<string>>)
    requires i < |texts| && (file, errors) == chat.parse(texts[i])
    requires Prepared(chat, texts, i, infos, items, rejections)
    ensures Prepared(chat, texts, i + 1, infos', items', rejections')
  {
    var rejection, payload := GateFile(chat, texts[i], file, errors);
    OneMoreRejection(chat, texts, i, rejections, rejection);
    infos', items', rejections' := infos, items, rejections + [rejection];
    if payload.Some? {
      var info := CorefInfo(i, payload.value.1, |items|);
      AddInfo(chat, texts, i, infos, info);
      AddItem(chat, texts, infos, items, info, payload.value.0);
      infos', items' := infos + [info], items + [payload.value.0];
    } else {
      NoInfo(chat, texts, i, infos, items);
    }
  }

  method Prepare(chat: Chat, texts: seq<string>)
    returns (parsed: seq<ChatFile>, infos: seq<CorefInfo>, items: seq<Document>, rejections: seq<Option<string>>)
    ensures |parsed| == |rejections| == |texts| && items == BatchItems(chat, texts, |texts|)
    ensures forall k :: 0 <= k < |texts| ==> parsed[k] == Parsed(chat, texts[k])
    ensures forall k :: 0 <= k < |texts| ==>
              rejections[k] == if GateOf(chat, texts[k]).Rejected? then Some(GateOf(chat, texts[k]).error) else None
    ensures InfosFor(chat, texts, |texts|, infos)
    ensures AreInOrder(chat, texts, infos, items)
  {
    var counts;
    parsed, counts := ParseAll(chat, texts);
    infos, items, rejections := [], [], [];
    for i := 0 to |texts|
      invariant Prepared(chat, texts, i, infos, items, rejections)
    {
      infos, items, rejections := PrepareFile(chat, texts, i, parsed[i], counts[i], infos, items, rejections);
    }
  }

  lemma ApplyNothing(file: ChatFile)
    ensures Apply(file, map[]) == file
  {
  }

  /** An annotated file, as the batch makes it: untouched when there is nothing to note. */
  method Annotate(file: ChatFile, annotations: seq<Annotation>, lines: seq<nat>) returns (r: ChatFile)
    ensures r == Apply(file, LineNotes(annotations, lines))
  {
    var notes := BuildLineNotes(annotations, lines);
    ApplyNothing(file);
    r := file;
    if notes != map[] {
      r := ApplyResults(file, notes);
    }
  }

  /** File `k` holds what the batch must return for it, unless it was rejected. */
  ghost predicate IsFinal(chat: Chat, texts: seq<string>, k: nat, answers: seq<seq<Annotation>>, file: ChatFile)
    requires k < |texts| && |answers| == |BatchItems(chat, texts, |texts|)|
  {
    !GateOf(chat, texts[k]).Rejected? ==> BatchResult(chat, texts, k, answers) == Ok(file)
  }

  lemma AnnotatedIsFinal(chat: Chat, texts: seq<string>, k: nat, answers: seq<seq<Annotation>>, lines: seq<nat>)
    requires k < |texts| && |answers| == |BatchItems(chat, texts, |texts|)| && GateOf(chat, texts[k]).Eligible?
    requires lines == SentenceLines(Parsed(chat, texts[k]), |Parsed(chat, texts[k])|)
    ensures |BatchItems(chat, texts, k)| < |answers|
    ensures IsFinal(chat, texts, k, answers,
        Apply(Parsed(chat, texts[k]), LineNotes(answers[|BatchItems(chat, texts, k)|], lines)))
  {
    BatchPlace(chat, texts, k);
  }

  /** After the first `e` eligible files: those are final, all others as parsed. */
  ghost predicate Distributed(chat: Chat, texts: seq<string>, infos: seq<CorefInfo>, answers: seq<seq<Annotation>>,
                              files: seq<ChatFile>, e: nat)
    requires |answers| == |BatchItems(chat, texts, |texts|)| && e <= |infos|
  {
    && |files| == |texts|
    && forall k :: 0 <= k < |texts| ==>
         if exists d :: 0 <= d < e && infos[d].file == k then IsFinal(chat, texts, k, answers, files[k])
         else files[k] == Parsed(chat, texts[k])
  }

  lemma DistributeNext(chat: Chat, texts: seq<string>, infos: seq<CorefInfo>, answers: seq<seq<Annotation>>,
                       files: seq<ChatFile>, e: nat, annotated: ChatFile)
    requires |answers| == |BatchItems(chat, texts, |texts|)| && e < |infos| && infos[e].file < |texts|
    requires Distributed(chat, texts, infos, answers, files, e)
    requires IsFinal(chat, texts, infos[e].file, answers, annotated)
    ensures Distributed(chat, texts, infos, answers, files[infos[e].file := annotated], e + 1)
  {
    var files' := files[infos[e].file := annotated];
    forall k | 0 <= k < |texts| ensures
      if exists d :: 0 <= d < e + 1 && infos[d].file == k then IsFinal(chat, texts, k, answers, files'[k])
      else files'[k] == Parsed(chat, texts[k])
    {
      if k != infos[e].file {
        assert (exists d :: 0 <= d < e + 1 && infos[d].file == k) ==> exists d :: 0 <= d < e && infos[d].file == k;
      }
    }
  }

  /** Annotate the eligible files in place. */
  method Distribute(chat: Chat, texts: seq<string>, parsed: seq<ChatFile>, infos: seq<CorefInfo>,
                    answers: seq<seq<Annotation>>)
    returns (files: seq<ChatFile>)
    requires |parsed| == |texts| && forall k :: 0 <= k < |texts| ==> parsed[k] == Parsed(chat, texts[k])
    requires InfosFor(chat, texts, |texts|, infos)
    requires |answers| == |BatchItems(chat, texts, |texts|)|
    ensures |files| == |texts|
    ensures forall k :: 0 <= k < |texts| ==> IsFinal(chat, texts, k, answers, files[k])
  {
    files := parsed;
    for e := 0 to |infos|
      invariant Distributed(chat, texts, infos, answers, files, e)
    {
      var info := infos[e];
      AnnotatedIsFinal(chat, texts, info.file, answers, info.lines);
      if info.place < |answers| {
        var annotated := Annotate(files[info.file], answers[info.place], info.lines);
        DistributeNext(chat, texts, infos, answers, files, e, annotated);
        files := files[info.file := annotated];
      }
    }
  }

  /** The early return after a failed batched call. */
  method ReportAllOk(inputs: seq<FileInput>, files: seq<ChatFile>) returns (results: seq<FileResult>)
    requires |files| == |inputs|
    ensures |results| == |inputs|
    ensures forall k :: 0 <= k < |inputs| ==> results[k] == FileResult(inputs[k].filename, Ok(files[k]))
  {
    results := [];
    for k := 0 to |inputs|
      invariant |results| == k
      invariant forall j :: 0 <= j < k ==> results[j] == FileResult(inputs[j].filename, Ok(files[j]))
    {
      results := results + [FileResult(inputs[k].filename, Ok(files[k]))];
    }
  }

  /** The final loop: a rejection or the file. */
  method ReportEach(inputs: seq<FileInput>, files: seq<ChatFile>, rejections: seq<Option<string>>)
    returns (results: seq<FileResult>)
    requires |files| == |rejections| == |inputs|
    ensures |results| == |inputs|
    ensures forall k :: 0 <= k < |inputs| ==>
              results[k] == FileResult(inputs[k].filename,
                                       if rejections[k].Some? then Err(rejections[k].value) else Ok(files[k]))
  {
    results := [];
    for k := 0 to |inputs|
      invariant |results| == k
      invariant forall j :: 0 <= j < k ==>
                  results[j] == FileResult(inputs[j].filename,
                                           if rejections[j].Some? then Err(rejections[j].value) else Ok(files[j]))
    {
      if rejections[k].Some? {
        results := results + [FileResult(inputs[k].filename, Err(rejections[k].value))];
      } else {
        results := results + [FileResult(inputs[k].filename, Ok(files[k]))];
      }
    }
  }

  /**
   The batch: in input order, each file gets its batch result; but when the
   batched call fails every file is returned unannotated and reported ok.
   */
  method RunBatch(chat: Chat, worker: Worker, inputs: seq<FileInput>) returns (results: seq<FileResult>)
    ensures |results| == |inputs| && forall k :: 0 <= k < |inputs| ==> results[k].filename == inputs[k].filename
    ensures var items := BatchItems(chat, Texts(inputs), |inputs|);
            forall k :: 0 <= k < |inputs| ==>
              results[k].outcome
              == if items != [] && Inferred(worker, items).Err? then Ok(Parsed(chat, inputs[k].text))
                 else BatchResult(chat, Texts(inputs), k, if items == [] then [] else Inferred(worker, items).value)
  {
    var texts := Texts(inputs);
    var parsed, infos, items, rejections := Prepare(chat, texts);
    var answers: seq<seq<Annotation>> := [];
    results := [];
    if items != [] {
      var reply := InferBatch(worker, items);
      if reply.Err? {
        results := ReportAllOk(inputs, parsed);
        return;
      }
      answers := reply.value;
    }
    var files := Distribute(chat, texts, parsed, infos, answers);
    forall k | 0 <= k < |inputs|
      ensures BatchResult(chat, texts, k, answers)
          == if rejections[k].Some? then Err(rejections[k].value) else Ok(files[k])
    {
      assert IsFinal(chat, texts, k, answers, files[k]);
    }
    results := ReportEach(inputs, files, rejections);
  }

  // ----------------------------------------------------------------- batch against single

  /** If the call for `items` succeeds, it answers each document as `resolve` does, whatever the others are. */
  ghost predicate AnswersEach(worker: Worker, resolve: Document -> ItemResult, items: seq<Document>) {
    worker(items).Ok? ==>
      |worker(items).value| == |items| && forall i :: 0 <= i < |items| ==> worker(items).value[i] == resolve(items[i])
  }

  ghost predicate SameUpToProvenance(a: Result<ChatFile, string>, b: Result<ChatFile, string>) {
    match (a, b)
    case (Ok(f), Ok(g)) => WithoutProvenance(f) == WithoutProvenance(g)
    case (Err(e), Err(d)) => e == d
    case _ => false
  }

  /**
   With a worker that answers per document, a batched call that succeeds gives a
   file the status and the annotations it gets alone, unless its own call fails.
   */
  lemma {:induction false} BatchMatchesSingle(chat: Chat, worker: Worker, resolve: Document -> ItemResult,
                                              texts: seq<string>, k: nat, comment: string)
    requires k < |texts| && Inferred(worker, BatchItems(chat, texts, |texts|)).Ok?
    requires AnswersEach(worker, resolve, BatchItems(chat, texts, |texts|))
    requires AnswersEach(worker, resolve, [DocumentOf(chat, texts[k])])
    ensures SameUpToProvenance(BatchResult(chat, texts, k, Inferred(worker, BatchItems(chat, texts, |texts|)).value),
                               SingleResult(chat, worker, texts[k], comment))
        <==> !GateOf(chat, texts[k]).Eligible? || Inferred(worker, [DocumentOf(chat, texts[k])]).Ok?
  {
    if GateOf(chat, texts[k]).Eligible? && Inferred(worker, [DocumentOf(chat, texts[k])]).Ok? {
      var document := DocumentOf(chat, texts[k]);
      BatchPlace(chat, texts, k);
      ProvenanceIsInvisible(chat, Resolved(chat, texts[k], Answer(resolve(document))), comment);
    }
  }

  /** The notes would leave the file as it is: each is empty or already on its utterance. */
  ghost predicate AddsNothing(file: ChatFile, notes: map<nat, string>) {
    forall i :: 0 <= i < |file| && i in notes && file[i].Utterance? ==>
      notes[i] == "" || file[i].xcoref == Some(notes[i])
  }

  lemma {:induction false} AddsNothingSnoc(file: ChatFile, n: nat, notes: map<nat, string>)
    requires |file| == n + 1
    ensures AddsNothing(file, notes)
        <==> AddsNothing(file[..n], notes) && Annotated(file[n], if n in notes then Some(notes[n]) else None) == file[n]
  {
    var init := file[..n];
    assert forall i :: 0 <= i < n ==> init[i] == file[i];
  }

  lemma {:induction false} StripSnoc(file: ChatFile, line: Line)
    ensures WithoutProvenance(file + [line]) == WithoutProvenance(file) + if line.Provenance? then [] else [line]
  {
    assert (file + [line])[..|file|] == file;
  }

  lemma {:induction false} AddsNothingIff(file: ChatFile, notes: map<nat, string>)
    ensures WithoutProvenance(Apply(file, notes)) == WithoutProvenance(file) <==> AddsNothing(file, notes)
    ensures |WithoutProvenance(Apply(file, notes))| == |WithoutProvenance(file)|
  {
    if file != [] {
      var n := |file| - 1;
      var init, last := file[..n], file[n];
      var last' := Annotated(last, if n in notes then Some(notes[n]) else None);
      var a, b := WithoutProvenance(Apply(init, notes)), WithoutProvenance(init);
      AddsNothingIff(init, notes);
      AddsNothingSnoc(file, n, notes);
      StrippedEnds(file, n, notes);
      if last.Provenance? {
        assert a + [] == a && b + [] == b;
      } else {
        SnocAgreesIff(a, last', b, last);
      }
    }
  }

  lemma {:induction false} StrippedEnds(file: ChatFile, n: nat, notes: map<nat, string>)
    requires |file| == n + 1
    ensures var last' := Annotated(file[n], if n in notes then Some(notes[n]) else None);
            && WithoutProvenance(file) == WithoutProvenance(file[..n]) + (if file[n].Provenance? then [] else [file[n]])
            && WithoutProvenance(Apply(file, notes))
               == WithoutProvenance(Apply(file[..n], notes)) + (if file[n].Provenance? then [] else [last'])
  {
    var last' := Annotated(file[n], if n in notes then Some(notes[n]) else None);
    assert file == file[..n] + [file[n]] && Apply(file, notes) == Apply(file[..n], notes) + [last'];
    StripSnoc(file[..n], file[n]);
    StripSnoc(Apply(file[..n], notes), last');
  }

  lemma {:induction false} SnocAgreesIff(a: ChatFile, x: Line, b: ChatFile, y: Line)
    ensures a + [x] == b + [y] <==> a == b && x == y
  {
    if a + [x] == b + [y] {
      assert (a + [x])[..|a|] == a && (b + [y])[..|b|] == b;
      assert (a + [x])[|a|] == x && (b + [y])[|b|] == y;
    }
  }

  /** The notes a file gets from one document's answer. */
  function NotesFor(chat: Chat, text: string, annotations: seq<Annotation>): map<nat, string> {
    LineNotes(annotations, SentenceLines(Parsed(chat, text), |Parsed(chat, text)|))
  }

  /**
   When the batched call fails, every file comes back parsed and ok. That agrees
   with the file's own run exactly if it passes through, or its own call succeeds
   with an answer whose every note is empty or already there: rejected files are
   then reported ok as well.
   */
  lemma FailedBatchAgreement(chat: Chat, worker: Worker, text: string, comment: string)
    ensures SameUpToProvenance(Ok(Parsed(chat, text)), SingleResult(chat, worker, text, comment))
        <==> GateOf(chat, text).PassThrough?
             || (GateOf(chat, text).Eligible?
                 && Inferred(worker, [DocumentOf(chat, text)]).Ok?
                 && AddsNothing(Parsed(chat, text),
                   NotesFor(chat, text, Inferred(worker, [DocumentOf(chat, text)]).value[0])))
  {
    if GateOf(chat, text).Eligible? && Inferred(worker, [DocumentOf(chat, text)]).Ok? {
      var answer := Inferred(worker, [DocumentOf(chat, text)]).value[0];
      ProvenanceIsInvisible(chat, Resolved(chat, text, answer), comment);
      AddsNothingIff(Parsed(chat, text), NotesFor(chat, text, answer));
    }
  }

  /** A worker that answers one document at a time, with one note, and fails on more. */
  function OneAtATime(items: seq<Document>): Result<seq<ItemResult>, string> {
    if |items| == 1 then Ok([ItemResult(None, [Annotation(0, "(0)")])]) else Err("too many documents")
  }

  /** One-word files; the text "bad" does not pass validation. */
  function OneWordChat(): Chat {
    Chat(text => ([Utterance(["he"], None, "")], if text == "bad" then 1 else 0),
         _ => false, (_, errors) => if errors == 0 then None else Some("incomplete"), _ => true, _ => 0)
  }

  lemma {:induction false} OneWordFile(text: string)
    ensures Parsed(OneWordChat(), text) == [Utterance(["he"], None, "")]
    ensures DocumentOf(OneWordChat(), text) == [["he"]] && SentenceLines(Parsed(OneWordChat(), text), 1) == [0]
    ensures GateOf(OneWordChat(), text) == if text == "bad" then Rejected("incomplete") else Eligible
  {
    var file := [Utterance(["he"], None, "")];
    assert Sentences(file, 0) == [] && Sentences(file, 1) == [["he"]];
    assert SentenceLines(file, 0) == [] && SentenceLines(file, 1) == [0];
  }

  lemma {:induction false} OneWordNotes(text: string)
    ensures !AddsNothing(Parsed(OneWordChat(), text), NotesFor(OneWordChat(), text, [Annotation(0, "(0)")]))
  {
    var notes := [Annotation(0, "(0)")];
    OneWordFile(text);
    LastNoteWins(notes, [0], 0, 0);
  }

  /** The items of a batch of two good files and a bad one. */
  lemma {:induction false} ThreeFiles(texts: seq<string>)
    requires texts == ["good", "good", "bad"]
    ensures BatchItems(OneWordChat(), texts, 3) == [[["he"]], [["he"]]]
  {
    OneWordFile("good");
    OneWordFile("bad");
    assert BatchItems(OneWordChat(), texts, 0) == [];
    assert BatchItems(OneWordChat(), texts, 1) == [[["he"]]];
    assert BatchItems(OneWordChat(), texts, 2) == [[["he"]], [["he"]]];
  }

  /**
   A batch that fails: the good files lose the annotation each would get alone,
   and the bad one, an error alone, is reported ok.
   */
  lemma {:induction false} FailedBatchDiffers(texts: seq<string>, k: nat, comment: string)
    requires texts == ["good", "good", "bad"] && k < 3
    ensures Inferred(OneAtATime, BatchItems(OneWordChat(), texts, 3)).Err?
    ensures !SameUpToProvenance(Ok(Parsed(OneWordChat(), texts[k])),
                                SingleResult(OneWordChat(), OneAtATime, texts[k], comment))
  {
    ThreeFiles(texts);
    OneWordFile(texts[k]);
    OneWordNotes(texts[k]);
    assert Answers([ItemResult(None, [Annotation(0, "(0)")])]) == [[Annotation(0, "(0)")]];
    FailedBatchAgreement(OneWordChat(), OneAtATime, texts[k], comment);
  }
}
