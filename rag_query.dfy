/**
 * The query half of piplines/rag_pipeline.py (`process_rag`): turn the
 * retrieved matches into context blocks, join them into the prompt
 * template, and shape the model's answer, falling back to the raw text
 * when no structured payload was parsed.
 *
 * The prompt embedding, the vector query and the model call are inputs:
 * `results` is what the query returned, `raw` the model's text and
 * `parsed` the object decoded from it, if any.
 */
module RagQuery {
  import opened Wrappers
  import opened RagMerge

  /** `r['metadata'].get('path', '')`. */
  function PathOf(m: Match): string {
    if "path" in m.metadata then m.metadata["path"] else ""
  }

  /** `r.get('text') or ''`. */
  function TextOf(m: Match): string {
    if m.text.Some? then m.text.value else ""
  }

  /** One context block: `path::id`, a line break, then the chunk text. */
  function Context(m: Match): (r: string)
    ensures |r| == |PathOf(m)| + 2 + |m.id| + 1 + |TextOf(m)|
  {
    PathOf(m) + "::" + m.id + "\n" + TextOf(m)
  }

  /** `contexts`, one block per match in query order. */
  function Contexts(results: seq<Match>): (r: seq<string>)
    ensures |r| == |results|
    ensures forall j :: 0 <= j < |r| ==> r[j] == Context(results[j])
  {
    seq(|results|, j requires 0 <= j < |results| => Context(results[j]))
  }

  /** The position of the first `c` in `s`, or `|s|` when there is none. */
  function IndexOf(s: string, c: char): (r: nat)
    ensures r <= |s|
    ensures forall k :: 0 <= k < r ==> s[k] != c
    ensures r < |s| ==> s[r] == c
  {
    if s == [] then 0 else if s[0] == c then 0 else 1 + IndexOf(s[1..], c)
  }

  /** Reads a context block back into path, id and text. */
  function ParseContext(s: string): Option<(string, string, string)> {
    var p := IndexOf(s, ':');
    if p + 1 < |s| && s[p + 1] == ':' then
      var rest := s[p + 2..];
      var q := IndexOf(rest, '\n');
      if q < |rest| then Some((s[..p], rest[..q], rest[q + 1..])) else None
    else None
  }

  /** The first `c` after a prefix without `c` is where the prefix ends. */
  lemma {:induction false} IndexAfter(a: string, b: string, c: char)
    requires c !in a && b != [] && b[0] == c
    ensures IndexOf(a + b, c) == |a|
  {
    if a != [] {
      assert (a + b)[1..] == a[1..] + b;
      IndexAfter(a[1..], b, c);
    }
  }

  /** Reading back the three pieces of a block. */
  lemma ParsePieces(path: string, id: string, text: string)
    requires ':' !in path && '\n' !in id
    ensures ParseContext(path + "::" + id + "\n" + text) == Some((path, id, text))
  {
    var tail := "::" + id + "\n" + text;
    var s := path + tail;
    assert path + "::" + id + "\n" + text == s;
    IndexAfter(path, tail, ':');
    var p := |path|;
    assert s[p + 1] == ':';
    var rest := id + ("\n" + text);
    assert s[p + 2..] == rest by {
      assert s[p + 2..] == tail[2..];
    }
    IndexAfter(id, "\n" + text, '\n');
    assert s[..p] == path;
    assert rest[..|id|] == id && rest[|id| + 1..] == text;
  }

  /**
   * A context block names its chunk unambiguously when the path has no
   * colon and the id no line break: reading it back gives the path, the
   * id and the text.
   */
  lemma ParseContextRoundTrip(m: Match)
    requires ':' !in PathOf(m) && '\n' !in m.id
    ensures ParseContext(Context(m)) == Some((PathOf(m), m.id, TextOf(m)))
  {
    ParsePieces(PathOf(m), m.id, TextOf(m));
  }

  /** The separator between context blocks. */
  const Separator: string := "\n---\n"

  /** `'\n---\n'.join(parts)`. */
  function Join(parts: seq<string>): string {
    if parts == [] then ""
    else if |parts| == 1 then parts[0]
    else parts[0] + Separator + Join(parts[1..])
  }

  /** The length of a joined text: all parts and a separator between each
      two. */
  function TotalLength(parts: seq<string>): nat {
    if parts == [] then 0 else |parts[0]| + TotalLength(parts[1..])
  }

  lemma {:induction false} JoinLength(parts: seq<string>)
    requires parts != []
    ensures |Join(parts)| == TotalLength(parts) + (|parts| - 1) * |Separator|
  {
    if |parts| > 1 {
      JoinLength(parts[1..]);
    }
  }

  /** Where part `j` begins in the joined text. */
  function Offset(parts: seq<string>, j: nat): nat
    requires j <= |parts|
  {
    if j == 0 then 0 else |parts[0]| + |Separator| + Offset(parts[1..], j - 1)
  }

  /** Every part appears whole in the joined text, at its offset: no
      retrieved context is cut or reordered. */
  lemma {:induction false} JoinPart(parts: seq<string>, j: nat)
    requires j < |parts|
    ensures Offset(parts, j) + |parts[j]| <= |Join(parts)|
    ensures Join(parts)[Offset(parts, j)..Offset(parts, j) + |parts[j]|] == parts[j]
  {
    if j == 0 {
      if |parts| > 1 {
        assert Join(parts) == parts[0] + (Separator + Join(parts[1..]));
      }
    } else {
      JoinPart(parts[1..], j - 1);
      var tail := Join(parts[1..]);
      var o := |parts[0]| + |Separator|;
      assert Join(parts) == (parts[0] + Separator) + tail;
      assert Join(parts)[o + Offset(parts[1..], j - 1)..o + Offset(parts[1..], j - 1) + |parts[j]|]
          == tail[Offset(parts[1..], j - 1)..Offset(parts[1..], j - 1) + |parts[j]|];
    }
  }

  /** The text before `{context}` in the prompt template. */
  const Preamble: string :=
    "\nYou are a code mentor assistant. Use the CONTEXT below (code chunks) and the QUESTION to produce:\n"
    + "- a short list of concrete suggestions\n"
    + "- a few insights about code structure or risk\n"
    + "- guidance on next steps\n"
    + "\nCONTEXT:\n"

  /** The text between `{context}` and `{question}`. */
  const Between: string := "\n\nQUESTION:\n"

  /** The text after `{question}`. */
  const Closing: string :=
    "\n\nRESPONSE FORMAT:\nJSON with fields: suggestions (list), insights (list), guidance (string)\n"

  /** `part` appears whole in `s`, starting at `at`. */
  predicate HoldsAt(s: string, at: int, part: string) {
    0 <= at && at + |part| <= |s| && s[at..at + |part|] == part
  }

  /** A two-placeholder template: fixed text around a context and a
      question. */
  function Fill(pre: string, context: string, mid: string, question: string, post: string): (r: string)
    ensures |r| == |pre| + |context| + |mid| + |question| + |post|
    ensures HoldsAt(r, |pre|, context) && HoldsAt(r, |pre| + |context| + |mid|, question)
  {
    var r := pre + context + mid + question + post;
    assert r[|pre|..|pre| + |context|] == context;
    assert r[|pre| + |context| + |mid|..|pre| + |context| + |mid| + |question|] == question;
    r
  }

  /** `prompt_template.format(context=..., question=...)`: each placeholder
      is filled once, so braces in the values stay as they are. */
  function AssemblePrompt(context: string, question: string): (r: string)
    ensures |r| == |Preamble| + |context| + |Between| + |question| + |Closing|
    ensures HoldsAt(r, |Preamble|, context) && HoldsAt(r, |Preamble| + |context| + |Between|, question)
  {
    Fill(Preamble, context, Between, question, Closing)
  }

  /** Where each piece of a filled template sits. */
  lemma FillLayout(pre: string, context: string, mid: string, question: string, post: string)
    ensures var s := Fill(pre, context, mid, question, post);
            var c := |pre|;
            var q := c + |context| + |mid|;
            && |s| == q + |question| + |post|
            && s[..c] == pre
            && s[c..c + |context|] == context
            && s[c + |context|..q] == mid
            && s[q..q + |question|] == question
            && s[q + |question|..] == post
  {
    var s := Fill(pre, context, mid, question, post);
    var c := |pre|;
    var q := c + |context| + |mid|;
    assert s[..c] == pre;
    assert s[c..c + |context|] == context;
    assert s[c + |context|..q] == mid;
    assert s[q..q + |question|] == question;
    assert s[q + |question|..] == post;
  }

  /**
   * The assembled prompt holds the template text unchanged around the
   * joined contexts and the question, each at a fixed place: the context
   * right after the preamble, the question right after it and the
   * `QUESTION:` line.
   */
  lemma PromptLayout(context: string, question: string)
    ensures var s := AssemblePrompt(context, question);
            var c := |Preamble|;
            var q := c + |context| + |Between|;
            && |s| == q + |question| + |Closing|
            && s[..c] == Preamble
            && s[c..c + |context|] == context
            && s[c + |context|..q] == Between
            && s[q..q + |question|] == question
            && s[q + |question|..] == Closing
  {
    FillLayout(Preamble, context, Between, question, Closing);
  }

  lemma SliceOfSlice(s: string, c: nat, len: nat, o: nat, n: nat)
    requires c + len <= |s| && o + n <= len
    ensures s[c..c + len][o..o + n] == s[c + o..c + o + n]
  {
    var x := s[c..c + len];
    forall k | o <= k < o + n ensures x[k] == s[c + k] {
    }
  }

  /** Part `j` of a joined context sits at its offset after the text
      before the placeholder. */
  lemma FillHoldsPart(pre: string, parts: seq<string>, mid: string, question: string, post: string, j: nat)
    requires j < |parts|
    ensures var s := Fill(pre, Join(parts), mid, question, post);
            var at := |pre| + Offset(parts, j);
            at + |parts[j]| <= |s| && s[at..at + |parts[j]|] == parts[j]
  {
    var joined := Join(parts);
    var s := Fill(pre, joined, mid, question, post);
    JoinPart(parts, j);
    SliceOfSlice(s, |pre|, |joined|, Offset(parts, j), |parts[j]|);
  }

  /** The prompt built from the query results: the context block of match
      `j` sits at its offset after the preamble. */
  lemma PromptHoldsContext(results: seq<Match>, question: string, j: nat)
    requires j < |results|
    ensures var parts := Contexts(results);
            var s := AssemblePrompt(Join(parts), question);
            var at := |Preamble| + Offset(parts, j);
            at + |Context(results[j])| <= |s| && s[at..at + |Context(results[j])|] == Context(results[j])
  {
    FillHoldsPart(Preamble, Contexts(results), Between, question, Closing, j);
  }

  /** A decoded JSON value. */
  datatype Json = JNull | JBool(b: bool) | JNum(n: int) | JStr(s: string) | JArr(items: seq<Json>) | JObj(fields: map<string, Json>)

  /** `parsed.get(key, default)`. */
  function Field(parsed: map<string, Json>, key: string, default: Json): Json {
    if key in parsed then parsed[key] else default
  }

  /** The suggestion list of the fallback answer. */
  const FallbackNote: string := "See raw output for details."

  /** What `process_rag` returns. */
  datatype Answer = Answer(suggestions: Json, insights: Json, guidance: Json, rawOutput: string)

  /**
   * The parse/fallback branch: an absent or empty payload gives the raw
   * text as guidance, the one fallback suggestion and no insights; any
   * other payload supplies each field, with an empty list or an empty
   * string where it lacks one. The raw text is always returned.
   */
  function Respond(raw: string, parsed: Option<map<string, Json>>): (r: Answer)
    ensures r.rawOutput == raw
    ensures (parsed.None? || parsed.value == map[]) ==>
              r == Answer(JArr([JStr(FallbackNote)]), JArr([]), JStr(raw), raw)
    ensures parsed.Some? && parsed.value != map[] ==>
              && ("suggestions" in parsed.value ==> r.suggestions == parsed.value["suggestions"])
              && ("suggestions" !in parsed.value ==> r.suggestions == JArr([]))
              && ("insights" in parsed.value ==> r.insights == parsed.value["insights"])
              && ("insights" !in parsed.value ==> r.insights == JArr([]))
              && ("guidance" in parsed.value ==> r.guidance == parsed.value["guidance"])
              && ("guidance" !in parsed.value ==> r.guidance == JStr(""))
  {
    if parsed.Some? && parsed.value != map[] then
      var p := parsed.value;
      Answer(Field(p, "suggestions", JArr([])), Field(p, "insights", JArr([])), Field(p, "guidance", JStr("")), raw)
    else
      Answer(JArr([JStr(FallbackNote)]), JArr([]), JStr(raw), raw)
  }

  /**
   * A payload never turns into the fallback answer unless it spells it
   * out: with a non-empty payload, the fallback suggestion list appears
   * only when the payload's `suggestions` field is that very list.
   */
  lemma FallbackOnlyWithoutPayload(raw: string, parsed: Option<map<string, Json>>)
    requires Respond(raw, parsed).suggestions == JArr([JStr(FallbackNote)])
    ensures parsed.None? || parsed.value == map[] ||
            ("suggestions" in parsed.value && parsed.value["suggestions"] == JArr([JStr(FallbackNote)]))
  {
  }

  /** `a`'s suggestions are the fallback note exactly when the payload is
      absent or empty or itself holds that list. */
  ghost predicate FallbackExactly(a: Answer, parsed: Option<map<string, Json>>) {
    a.suggestions == JArr([JStr(FallbackNote)]) <==>
      (parsed.None? || parsed.value == map[] ||
       ("suggestions" in parsed.value && parsed.value["suggestions"] == JArr([JStr(FallbackNote)])))
  }

  /** What the prompt sent for `results` and `question` carries: every
      retrieved block whole at its offset after the preamble, and the
      question after the `QUESTION:` line. */
  ghost predicate PromptCarries(s: string, results: seq<Match>, question: string) {
    && HoldsAt(s, |Preamble| + |Join(Contexts(results))| + |Between|, question)
    && forall j :: 0 <= j < |results| ==>
         HoldsAt(s, |Preamble| + Offset(Contexts(results), j), Context(results[j]))
  }

  /** The answer keeps the raw text, and its suggestions are the fallback
      note exactly when the payload is absent or empty or itself holds
      that list. */
  lemma AnswerFacts(raw: string, parsed: Option<map<string, Json>>)
    ensures Respond(raw, parsed).rawOutput == raw
    ensures FallbackExactly(Respond(raw, parsed), parsed)
  {
    if Respond(raw, parsed).suggestions == JArr([JStr(FallbackNote)]) {
      FallbackOnlyWithoutPayload(raw, parsed);
    }
  }

  /** Every retrieved block appears whole in the prompt, at its offset
      after the preamble, and the question follows the `QUESTION:` line. */
  lemma PromptHoldsEveryContext(results: seq<Match>, question: string)
    ensures PromptCarries(AssemblePrompt(Join(Contexts(results)), question), results, question)
  {
    forall j | 0 <= j < |results|
      ensures HoldsAt(AssemblePrompt(Join(Contexts(results)), question),
                      |Preamble| + Offset(Contexts(results), j), Context(results[j]))
    {
      PromptHoldsContext(results, question, j);
    }
  }

  /**
   * `process_rag` after the model call: the prompt sent and the answer
   * returned. The prompt holds every retrieved block whole and the question
   * after the `QUESTION:` line; the
   * answer carries the raw text, and its suggestions are the fallback note
   * exactly when the payload is absent or empty or itself holds that list.
   */
  function ProcessRag(question: string, results: seq<Match>, raw: string,
                      parsed: Option<map<string, Json>>): (r: (string, Answer))
    ensures PromptCarries(r.0, results, question)
    ensures r.1.rawOutput == raw && FallbackExactly(r.1, parsed)
  {
    PromptHoldsEveryContext(results, question);
    AnswerFacts(raw, parsed);
    (AssemblePrompt(Join(Contexts(results)), question), Respond(raw, parsed))
  }
}
