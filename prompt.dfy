/** Prompt assembly in chat() (app.py): the rewritten user turn, the message
    list sent to the model, the session title and the comma-separated
    serialisations stored with the assistant's answer. */
module Prompt {
  import opened Wrappers
  import opened Text
  import opened Retrieval
  import opened Seqs

  /** An entry of the message lists: a role and a content. */
  datatype Message = Message(role: string, content: string)

  const SystemPrompt: string :=
    "Eres un asistente inteligente especializado en analizar documentos PDF. \n"
    + "Cuando respondas preguntas sobre documentos:\n"
    + "- Si hay contexto relevante proporcionado, úsalo para responder.\n"
    + "- Si hay imágenes asociadas, menciona que están disponibles y en qué página del PDF.\n"
    + "- Sé preciso y cita las páginas cuando sea relevante.\n"
    + "- Si no tienes información suficiente en el contexto, indícalo claramente."

  const SystemMessage: Message := Message("system", SystemPrompt)

  const ContextHeader: string := "Contexto del documento:\n"
  const QuestionHeader: string := "\n\nPregunta del usuario: "
  const ReferencesHeader: string := "\n\nReferencias: "
  const ImagesHeader: string := "\n\nImágenes disponibles: "

  /** Longest session title. */
  const TitleLength: nat := 50

  function PageLabel(pageNumber: nat): string {
    "Página " + NatToString(pageNumber)
  }

  function ImageLabel(pageNumber: nat): string {
    "Imagen en página " + NatToString(pageNumber)
  }

  /** ', '.join(f"Página {n}" for each reference). */
  function ReferencesLine(refs: seq<PdfRef>): string {
    Join(seq(|refs|, i requires 0 <= i < |refs| => PageLabel(refs[i].pageNumber)), ", ")
  }

  /** ', '.join(f"Imagen en página {n}" for each image). */
  function ImagesLine(images: seq<ImageRef>): string {
    Join(seq(|images|, i requires 0 <= i < |images| => ImageLabel(images[i].pageNumber)), ", ")
  }

  /** `context and context.get('relevantText')`. */
  predicate Grounded(context: Option<Context>) {
    context.Some? && context.value.relevantText != ""
  }

  /** The first part of a grounded user turn. */
  function Question(relevantText: string, message: string): string {
    ContextHeader + relevantText + QuestionHeader + message
  }

  /** user_content: the message itself, or the message framed by the context
      block and followed by the references and images lines when those lists
      are non-empty. */
  function UserContent(message: string, context: Option<Context>): (r: string)
    ensures !Grounded(context) ==> r == message
    ensures Grounded(context) ==>
              var c := context.value;
              var q := Question(c.relevantText, message);
              var refsPart := ReferencesHeader + ReferencesLine(c.references);
              var imagesPart := ImagesHeader + ImagesLine(c.images);
              && (c.references == [] && c.images == [] ==> r == q)
              && (c.references != [] && c.images == [] ==> r == q + refsPart)
              && (c.references == [] && c.images != [] ==> r == q + imagesPart)
              && (c.references != [] && c.images != [] ==> r == q + refsPart + imagesPart)
  {
    if !Grounded(context) then message
    else
      var c := context.value;
      var base := Question(c.relevantText, message);
      var refsPart := ReferencesHeader + ReferencesLine(c.references);
      var imagesPart := ImagesHeader + ImagesLine(c.images);
      var withRefs := if c.references != [] then base + refsPart else base;
      var full := if c.images != [] then withRefs + imagesPart else withRefs;
      full
  }

  /** history[:-1]: everything but the last entry ([] for []). */
  function DropLast(history: seq<Message>): seq<Message> {
    if history == [] then [] else history[..|history| - 1]
  }

  /** messages = [system] + history[:-1] + [{'role': 'user', 'content': user_content}]. */
  function Outbound(history: seq<Message>, userContent: string): seq<Message> {
    [SystemMessage] + DropLast(history) + [Message("user", userContent)]
  }

  /** The outbound list: system message first, rewritten user turn last, and
      in between every history entry but the last, in order. */
  lemma OutboundSpec(history: seq<Message>, userContent: string)
    ensures var r := Outbound(history, userContent);
            && |r| == 2 + Max(|history| - 1, 0)
            && r[0] == SystemMessage
            && r[|r| - 1] == Message("user", userContent)
            && (forall i :: 0 <= i < |history| - 1 ==> r[i + 1] == history[i])
            && r[1..|r| - 1] == DropLast(history)
  {
    var r := Outbound(history, userContent);
    assert r[1..|r| - 1] == DropLast(history);
  }

  /** message[:50]. */
  function SessionTitle(message: string): (title: string)
    ensures |title| <= TitleLength && title <= message
    ensures |message| <= TitleLength ==> title == message
    ensures |message| > TitleLength ==> |title| == TitleLength
  {
    if |message| <= TitleLength then message else message[..TitleLength]
  }

  /** f"{pdfId}:{pageNumber}". */
  function RefEntry(r: PdfRef): string {
    r.pdfId + ":" + NatToString(r.pageNumber)
  }

  /** pdf_references: ','.join of the entries, or None without references. */
  function PdfRefsField(context: Option<Context>): Option<string> {
    if context.Some? && context.value.references != [] then
      var refs := context.value.references;
      Some(Join(seq(|refs|, i requires 0 <= i < |refs| => RefEntry(refs[i])), ","))
    else None
  }

  /** image_ids: ','.join of the image paths, or None without images. */
  function ImageIdsField(context: Option<Context>): Option<string> {
    if context.Some? && context.value.images != [] then
      var images := context.value.images;
      Some(Join(seq(|images|, i requires 0 <= i < |images| => images[i].imagePath), ","))
    else None
  }

  lemma DigitsHaveNoSeparator(n: nat, c: char)
    requires !('0' <= c <= '9')
    ensures c !in NatToString(n)
  {
    var s := NatToString(n);
    assert forall i :: 0 <= i < |s| ==> s[i] != c;
  }

  /** An entry splits on ':' into the document id and the page number's
      digits, which read back as the page number. */
  lemma RefEntryRoundTrip(r: PdfRef)
    requires ':' !in r.pdfId
    ensures var parts := SplitOn(RefEntry(r), ':');
            && parts == [r.pdfId, NatToString(r.pageNumber)]
            && ParseNat(parts[1]) == r.pageNumber
  {
    DigitsHaveNoSeparator(r.pageNumber, ':');
    assert RefEntry(r) == Join([r.pdfId, NatToString(r.pageNumber)], [':']);
    SplitOnJoin([r.pdfId, NatToString(r.pageNumber)], ':');
    ParseNatToString(r.pageNumber);
  }

  /** The stored pdf_references splits on ',' back into one entry per
      reference, when document ids contain neither ',' nor ':'. */
  lemma PdfRefsRoundTrip(context: Option<Context>)
    requires context.Some? && context.value.references != []
    requires forall r :: r in context.value.references ==> ',' !in r.pdfId && ':' !in r.pdfId
    ensures var refs := context.value.references;
            var parts := SplitOn(PdfRefsField(context).value, ',');
            && |parts| == |refs|
            && (forall i :: 0 <= i < |refs| ==> SplitOn(parts[i], ':') == [refs[i].pdfId, NatToString(refs[i].pageNumber)])
            && (forall i :: 0 <= i < |refs| ==> ParseNat(NatToString(refs[i].pageNumber)) == refs[i].pageNumber)
  {
    var refs := context.value.references;
    var entries := seq(|refs|, i requires 0 <= i < |refs| => RefEntry(refs[i]));
    forall i | 0 <= i < |refs|
      ensures ',' !in entries[i]
      ensures SplitOn(entries[i], ':') == [refs[i].pdfId, NatToString(refs[i].pageNumber)]
      ensures ParseNat(NatToString(refs[i].pageNumber)) == refs[i].pageNumber
    {
      assert refs[i] in refs;
      DigitsHaveNoSeparator(refs[i].pageNumber, ',');
      RefEntryRoundTrip(refs[i]);
    }
    SplitOnJoin(entries, ',');
  }

  /** The stored image_ids splits on ',' back into the image paths, when no
      path contains ','. */
  lemma ImageIdsRoundTrip(context: Option<Context>)
    requires context.Some? && context.value.images != []
    requires forall img :: img in context.value.images ==> ',' !in img.imagePath
    ensures var images := context.value.images;
            var parts := SplitOn(ImageIdsField(context).value, ',');
            |parts| == |images| && forall i :: 0 <= i < |images| ==> parts[i] == images[i].imagePath
  {
    var images := context.value.images;
    var paths := seq(|images|, i requires 0 <= i < |images| => images[i].imagePath);
    forall i | 0 <= i < |images|
      ensures ',' !in paths[i]
    {
      assert images[i] in images;
    }
    SplitOnJoin(paths, ',');
  }
}
