/** The knowledge-base route (frontend/app/api/bedrock/route.ts): after a
    RetrieveAndGenerate call, the citations of the answer are rendered as one
    markdown string and the S3 URIs of the retrieved references are collected
    without duplicates. The SDK call itself is a parameter: what `send`
    returned, or that it threw. */
module Bedrock {
  import opened Wrap
  import opened Dedup

  /** `reference.location`: its `type` and `s3Location?.uri`. */
  datatype Location = Location(locationType: string, uri: Option<string>)

  /** A retrieved reference: `content?.text` and `location`. */
  datatype Reference = Reference(text: Option<string>, location: Option<Location>)

  /** A citation and its `retrievedReferences`, which may be absent. */
  datatype Citation = Citation(references: Option<seq<Reference>>)

  /** The SDK's `output` object, `{ text }`. As an object it is truthy
      whenever it is present, whatever its text. */
  datatype Output = Output(text: string)

  /** The fields of the SDK response the route reads. */
  datatype RetrieveResponse = RetrieveResponse(output: Option<Output>, citations: Option<seq<Citation>>)

  /** The object the route returns; `citations` and `markdownCitations` are
      the same string. */
  datatype Answer = Answer(output: Output, citations: string, markdownCitations: string, urls: seq<string>)

  /** What every reference appends: `"\n\n"`, `"***"`, `"\n\n <br>"`. */
  const Marker := "\n\n***\n\n <br>"

  /** What precedes a reference's text. */
  const TextLead := "\n\n  "

  /** A JavaScript string is truthy when it is not empty. */
  predicate Truthy(s: Option<string>)
  {
    s.Some? && s.value != ""
  }

  /** The markdown one reference contributes. */
  function Piece(r: Reference): (piece: string)
  {
    Marker + (if Truthy(r.text) then TextLead + r.text.value else "")
  }

  /** The URI one reference contributes to the set, if any. */
  function UriOf(r: Reference): (u: Option<string>)
  {
    if r.location.Some? && r.location.value.locationType == "S3" && Truthy(r.location.value.uri)
    then r.location.value.uri else None
  }

  function ReferencesOf(c: Citation): seq<Reference>
  {
    if c.references.Some? then c.references.value else []
  }

  /** `response.citations?.forEach(... retrievedReferences?.forEach(...))`:
      every reference, citation by citation. */
  function AllReferences(citations: seq<Citation>): seq<Reference>
  {
    if citations == [] then []
    else AllReferences(citations[..|citations| - 1]) + ReferencesOf(citations[|citations| - 1])
  }

  /** The markdown after visiting `refs` in order. */
  function Markdown(refs: seq<Reference>): string
  {
    if refs == [] then "" else Markdown(refs[..|refs| - 1]) + Piece(refs[|refs| - 1])
  }

  /** The URIs offered to `urls.add`, in order, repeats included. */
  function Uris(refs: seq<Reference>): seq<string>
  {
    if refs == [] then []
    else
      var last := refs[|refs| - 1];
      Uris(refs[..|refs| - 1]) + (if UriOf(last).Some? then [UriOf(last).value] else [])
  }

  function CitationList(response: RetrieveResponse): seq<Citation>
  {
    if response.citations.Some? then response.citations.value else []
  }

  /** What `callBedrockKnowledgeBase` resolves to: nothing when the call
      throws or the response has no output. */
  function KnowledgeBaseAnswer(reply: Completion<RetrieveResponse>): Option<Answer>
  {
    match reply
    case Threw => None
    case Returned(response) =>
      if response.output.None? then None
      else
        var refs := AllReferences(CitationList(response));
        Some(Answer(response.output.value, Markdown(refs), Markdown(refs), Distinct(Uris(refs))))
  }

  lemma AllReferencesSnoc(citations: seq<Citation>, i: nat)
    requires i < |citations|
    ensures AllReferences(citations[..i + 1]) == AllReferences(citations[..i]) + ReferencesOf(citations[i])
  {
    assert citations[..i + 1][..i] == citations[..i];
  }

  lemma MarkdownSnoc(refs: seq<Reference>, r: Reference)
    ensures Markdown(refs + [r]) == Markdown(refs) + Piece(r)
    ensures Uris(refs + [r]) == Uris(refs) + (if UriOf(r).Some? then [UriOf(r).value] else [])
  {
    assert (refs + [r])[..|refs|] == refs;
  }

  /** The inner `forEach` callback for one reference, as written: the string
      grows by `+=` and a truthy S3 URI is added to the insertion-ordered set
      `urls`, which holds the distinct URIs `seen` so far. */
  method VisitReference(markdownCitations: string, urls: seq<string>, ghost seen: seq<string>, reference: Reference)
    returns (markdownCitations': string, urls': seq<string>)
    requires urls == Distinct(seen)
    ensures markdownCitations' == markdownCitations + Piece(reference)
    ensures urls' == Distinct(seen + (if UriOf(reference).Some? then [UriOf(reference).value] else []))
  {
    markdownCitations' := markdownCitations + "\n\n";
    markdownCitations' := markdownCitations' + "***";
    markdownCitations' := markdownCitations' + "\n\n <br>";
    assert markdownCitations' == markdownCitations + Marker;
    if Truthy(reference.text) {
      markdownCitations' := markdownCitations' + TextLead + reference.text.value;
      assert Piece(reference) == Marker + (TextLead + reference.text.value);
    } else {
      assert Piece(reference) == Marker;
    }
    urls' := urls;
    if reference.location.Some? && reference.location.value.locationType == "S3" {
      var uri := reference.location.value.uri;
      if Truthy(uri) {
        DistinctSnoc(seen, uri.value);
        if uri.value !in urls {
          urls' := urls + [uri.value];
        }
      }
    }
    assert UriOf(reference).None? ==> seen + [] == seen;
  }

  /** The outer `forEach` callback for one citation: visit its references in
      order, after the references `before` of the earlier citations. */
  method VisitCitation(markdownCitations: string, urls: seq<string>, ghost before: seq<Reference>, citation: Citation)
    returns (markdownCitations': string, urls': seq<string>)
    requires markdownCitations == Markdown(before)
    requires urls == Distinct(Uris(before))
    ensures markdownCitations' == Markdown(before + ReferencesOf(citation))
    ensures urls' == Distinct(Uris(before + ReferencesOf(citation)))
  {
    markdownCitations', urls' := markdownCitations, urls;
    var refs := ReferencesOf(citation);
    var j := 0;
    assert before + refs[..j] == before;
    while j < |refs|
      invariant 0 <= j <= |refs|
      invariant markdownCitations' == Markdown(before + refs[..j])
      invariant urls' == Distinct(Uris(before + refs[..j]))
    {
      ghost var visited := before + refs[..j];
      markdownCitations', urls' := VisitReference(markdownCitations', urls', Uris(visited), refs[j]);
      MarkdownSnoc(visited, refs[j]);
      assert before + refs[..j + 1] == visited + [refs[j]];
      j := j + 1;
    }
    assert refs[..j] == refs;
  }

  /** The nested `forEach` loops over the citations and their references. */
  method CollectCitations(citations: seq<Citation>) returns (markdownCitations: string, urls: seq<string>)
    ensures markdownCitations == Markdown(AllReferences(citations))
    ensures urls == Distinct(Uris(AllReferences(citations)))
  {
    markdownCitations := "";
    urls := [];
    var i := 0;
    while i < |citations|
      invariant 0 <= i <= |citations|
      invariant markdownCitations == Markdown(AllReferences(citations[..i]))
      invariant urls == Distinct(Uris(AllReferences(citations[..i])))
    {
      markdownCitations, urls := VisitCitation(markdownCitations, urls, AllReferences(citations[..i]), citations[i]);
      AllReferencesSnoc(citations, i);
      i := i + 1;
    }
    assert citations[..i] == citations;
  }

  /** `callBedrockKnowledgeBase` from the `send` onwards. */
  method CallBedrockKnowledgeBase(reply: Completion<RetrieveResponse>) returns (answer: Option<Answer>)
    ensures answer == KnowledgeBaseAnswer(reply)
  {
    if reply.Threw? {
      return None;
    }
    var response := reply.value;
    if response.output.None? {
      return None;
    }
    var markdownCitations, urls := CollectCitations(CitationList(response));
    return Some(Answer(response.output.value, markdownCitations, markdownCitations, urls));
  }

  // ---------------------------------------------------------------------------
  // What the answer holds

  /** Number of `*` characters. */
  function Stars(s: string): nat
  {
    if s == [] then 0 else Stars(s[..|s| - 1]) + (if s[|s| - 1] == '*' then 1 else 0)
  }

  lemma {:induction false} StarsConcat(a: string, b: string)
    ensures Stars(a + b) == Stars(a) + Stars(b)
    decreases |b|
  {
    if b != [] {
      assert (a + b)[..|a + b| - 1] == a + b[..|b| - 1];
      StarsConcat(a, b[..|b| - 1]);
    } else {
      assert a + b == a;
    }
  }

  lemma StarsOfPiece(r: Reference)
    requires r.text.Some? ==> '*' !in r.text.value
    ensures Stars(Piece(r)) == 3
  {
    StarsOfMarker();
    if Truthy(r.text) {
      var t := r.text.value;
      assert Stars(t) == 0 by { StarsAbsent(t); }
      assert Stars(TextLead) == 0 by { StarsAbsent(TextLead); }
      StarsConcat(TextLead, t);
      StarsConcat(Marker, TextLead + t);
    } else {
      assert Piece(r) == Marker;
    }
  }

  lemma StarsOfMarker()
    ensures Stars(Marker) == 3
  {
    var head, stars, tail := "\n\n", "***", "\n\n <br>";
    assert Marker == head + stars + tail;
    StarsAbsent(head);
    StarsAbsent(tail);
    assert Stars(stars) == 3 by {
      assert stars[..2] == "**" && "**"[..1] == "*" && "*"[..0] == "";
    }
    StarsConcat(head, stars);
    StarsConcat(head + stars, tail);
  }

  lemma {:induction false} StarsAbsent(s: string)
    requires '*' !in s
    ensures Stars(s) == 0
  {
    if s != [] {
      assert s[|s| - 1] in s;
      StarsAbsent(s[..|s| - 1]);
    }
  }

  /** Each reference leaves exactly one `***` marker: when no reference text
      holds a `*`, the markdown holds three per reference. */
  lemma {:induction false} MarkersCountReferences(refs: seq<Reference>)
    requires forall k :: 0 <= k < |refs| && refs[k].text.Some? ==> '*' !in refs[k].text.value
    ensures Stars(Markdown(refs)) == 3 * |refs|
  {
    if refs != [] {
      var p := refs[..|refs| - 1];
      MarkersCountReferences(p);
      StarsOfPiece(refs[|refs| - 1]);
      StarsConcat(Markdown(p), Piece(refs[|refs| - 1]));
    }
  }

  /** Visiting the `k`-th reference appends its marker, then, only when its
      text is not empty, that text after two line breaks and two spaces. */
  lemma MarkdownStep(refs: seq<Reference>, k: nat)
    requires k < |refs|
    ensures Markdown(refs[..k + 1]) == Markdown(refs[..k]) + Marker + (if Truthy(refs[k].text) then TextLead + refs[k].text.value else "")
  {
    assert refs[..k + 1][..k] == refs[..k];
  }

  /** The markdown only ever grows: what the first `k` references produced
      stays at the front. */
  lemma {:induction false} MarkdownPrefix(refs: seq<Reference>, k: nat)
    requires k <= |refs|
    ensures Markdown(refs[..k]) <= Markdown(refs)
    decreases |refs|
  {
    if k < |refs| {
      var p := refs[..|refs| - 1];
      MarkdownPrefix(p, k);
      assert p[..k] == refs[..k];
    } else {
      assert refs[..k] == refs;
    }
  }

  /** A URI is offered to the set exactly when some reference has an S3
      location with that URI and the URI is not empty. */
  lemma {:induction false} UrisFromS3(refs: seq<Reference>)
    ensures forall u :: u in Uris(refs) ==> exists k :: 0 <= k < |refs| && S3UriAt(refs, k, u)
    ensures forall k, u :: 0 <= k < |refs| && S3UriAt(refs, k, u) ==> u in Uris(refs)
  {
    if refs != [] {
      var p, last := refs[..|refs| - 1], refs[|refs| - 1];
      UrisFromS3(p);
      forall u | u in Uris(refs) ensures exists k :: 0 <= k < |refs| && S3UriAt(refs, k, u) {
        if u in Uris(p) {
          var k :| 0 <= k < |p| && S3UriAt(p, k, u);
          assert S3UriAt(refs, k, u);
        } else {
          assert S3UriAt(refs, |refs| - 1, u);
        }
      }
      forall k, u | 0 <= k < |refs| && S3UriAt(refs, k, u) ensures u in Uris(refs) {
        if k < |p| { assert S3UriAt(p, k, u); }
      }
    }
  }

  /** The `k`-th reference has an S3 location whose URI is the non-empty `u`. */
  predicate S3UriAt(refs: seq<Reference>, k: nat, u: string)
    requires k < |refs|
  {
    && refs[k].location.Some?
    && refs[k].location.value.locationType == "S3"
    && refs[k].location.value.uri == Some(u)
    && u != ""
  }

  /** The contract of `callBedrockKnowledgeBase`: nothing when the call throws
      or there is no output; otherwise both citation fields hold the same
      markdown, which is empty when no reference was retrieved, and `urls`
      lists, once each and in the order first seen, exactly the non-empty
      URIs of the references with an S3 location. */
  lemma AnswerContract(reply: Completion<RetrieveResponse>)
    ensures KnowledgeBaseAnswer(reply).None? <==> reply.Threw? || reply.value.output.None?
    ensures KnowledgeBaseAnswer(reply).Some? ==>
      var answer := KnowledgeBaseAnswer(reply).value;
      var refs := AllReferences(CitationList(reply.value));
      && answer.output == reply.value.output.value
      && answer.citations == answer.markdownCitations == Markdown(refs)
      && (refs == [] ==> answer.markdownCitations == "" && answer.urls == [])
      && NoDuplicates(answer.urls)
      && (forall u :: u in answer.urls ==> exists k :: 0 <= k < |refs| && S3UriAt(refs, k, u))
      && (forall k, u :: 0 <= k < |refs| && S3UriAt(refs, k, u) ==> u in answer.urls)
  {
    if KnowledgeBaseAnswer(reply).Some? {
      var refs := AllReferences(CitationList(reply.value));
      UrisFromS3(refs);
      DistinctMembers(Uris(refs));
    }
  }

  /** Within `urls`, an earlier URI was offered to the set before a later one. */
  lemma UrlsInFirstSeenOrder(refs: seq<Reference>, i: nat, j: nat)
    requires i < j < |Distinct(Uris(refs))|
    ensures FirstIndex(Uris(refs), Distinct(Uris(refs))[i]) < FirstIndex(Uris(refs), Distinct(Uris(refs))[j])
  {
    DistinctFirstSeenOrder(Uris(refs), i, j);
  }
}
