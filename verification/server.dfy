/** The two request handlers of the server, as functions from what a request
    brings (and what the outside services answer) to the response sent and the
    side effects requested: jobs put on the upload queue, calls made to the
    retriever and to the text-generation service. */
module Server {
  import opened Wrappers
  import opened Strings
  import Decimal
  import opened Prompt
  import opened Answer
  import opened Whitespace

  /** The JSON bodies the handlers send. */
  datatype Body =
    | ErrorBody(error: string)                        // `{ error }`
    | ErrorWithDetails(error: string, details: string) // `{ error, details }`
    | Acknowledged(message: string)                   // `{ message }`
    | ChatReply(message: string, docs: seq<Document>)  // `{ message, docs }`

  datatype Response = Response(status: nat, body: Body)

  // ---------------------------------------------------------------------------
  // Upload

  /** The file record the disk storage hands to the handler: the client's name
      for the file, the directory it was written to, the name it was stored
      under and the full path. */
  datatype UploadedFile =
    UploadedFile(originalname: string, destination: string, filename: string, path: string)

  /** The payload of a queued ingestion job. */
  datatype JobData = JobData(filename: string, destination: string, path: string)

  /** A job added to the upload queue under a job name. */
  datatype Job = Job(name: string, data: JobData)

  datatype UploadOutcome = UploadOutcome(response: Response, enqueued: seq<Job>)

  const JobName := "file-ready"

  /** `POST /upload/pdf`. Without a file: 400 with `No file uploaded` and nothing
      queued. With one: exactly one `file-ready` job carrying the client's file
      name and where the file was stored, then an `uploaded` acknowledgement. */
  function UploadPdf(file: Option<UploadedFile>): (out: UploadOutcome)
    ensures out.response.status == 400 <==> file.None?
    ensures file.None? ==>
              out.response.body == ErrorBody("No file uploaded") && out.enqueued == []
    ensures file.Some? ==>
              && out.response == Response(200, Acknowledged("uploaded"))
              && |out.enqueued| == 1
              && out.enqueued[0].name == JobName
              && out.enqueued[0].data.filename == file.value.originalname
              && out.enqueued[0].data.destination == file.value.destination
              && out.enqueued[0].data.path == file.value.path
  {
    match file
    case None => UploadOutcome(Response(400, ErrorBody("No file uploaded")), [])
    case Some(f) =>
      var job := Job(JobName, JobData(f.originalname, f.destination, f.path));
      UploadOutcome(Response(200, Acknowledged("uploaded")), [job])
  }

  /** The collision-resistant prefix: the upload time in milliseconds and a
      random number (the rounded product of a random fraction and 10^9), in
      decimal, joined by a dash. Both are inputs here. */
  function UniqueSuffix(time: nat, random: nat): (suffix: string)
    ensures FindFirst(suffix, "-").Some?
    ensures var i := FindFirst(suffix, "-").value;
            && Decimal.IsCanonical(suffix[..i]) && Decimal.Value(suffix[..i]) == time
            && Decimal.IsCanonical(suffix[i + 1..]) && Decimal.Value(suffix[i + 1..]) == random
  {
    var t, r := Decimal.Show(time), Decimal.Show(random);
    FirstDashAfterDigits(t, r);
    Decimal.ValueShow(time);
    Decimal.ValueShow(random);
    assert (t + "-" + r)[..|t|] == t && (t + "-" + r)[|t| + 1..] == r;
    t + "-" + r
  }

  /** The name a file is stored under: the suffix, a dash, and the client's name
      for the file, which the stored name therefore ends with. */
  function StoredFilename(suffix: string, originalname: string): (name: string)
    ensures |name| == |suffix| + 1 + |originalname|
    ensures name[..|suffix|] == suffix && name[|suffix|] == '-'
    ensures name[|suffix| + 1..] == originalname
  {
    suffix + "-" + originalname
  }

  /** The parts of a stored name. */
  datatype StoredName = StoredName(time: nat, random: nat, originalname: string)

  /** Reads a stored name back: two canonical decimal numbers, each followed by a
      dash, then the original name. */
  function ParseStoredFilename(name: string): Option<StoredName> {
    match FindFirst(name, "-")
    case None => None
    case Some(i) =>
      var rest := name[i + 1..];
      match FindFirst(rest, "-")
      case None => None
      case Some(j) =>
        var time, random := name[..i], rest[..j];
        if Decimal.IsCanonical(time) && Decimal.IsCanonical(random) then
          Some(StoredName(Decimal.Value(time), Decimal.Value(random), rest[j + 1..]))
        else
          None
  }

  /** In a decimal numeral followed by a dash, that dash is the first one. */
  lemma FirstDashAfterDigits(digits: string, tail: string)
    requires Decimal.IsCanonical(digits)
    ensures FindFirst(digits + "-" + tail, "-") == Some(|digits|)
  {
    assert '-' !in digits by {
      assert forall k :: 0 <= k < |digits| ==> digits[k] != '-';
    }
    NoOccurrenceWithoutChar(digits, "-", '-');
    FirstOccurrenceAfterPrefix(digits, "-", tail);
  }

  /** Two numerals, each followed by a dash, and a tail parse as those numbers
      and that tail. */
  lemma ParseNumberedName(t: string, r: string, tail: string)
    requires Decimal.IsCanonical(t) && Decimal.IsCanonical(r)
    ensures ParseStoredFilename(t + "-" + (r + "-" + tail))
         == Some(StoredName(Decimal.Value(t), Decimal.Value(r), tail))
  {
    var rest := r + "-" + tail;
    var name := t + "-" + rest;
    FirstDashAfterDigits(t, rest);
    FirstDashAfterDigits(r, tail);
    assert name[..|t|] == t;
    assert name[|t| + 1..] == rest;
    assert rest[..|r|] == r;
    assert rest[|r| + 1..] == tail;
  }

  /** The stored name determines the upload time, the random number and the
      original name: whatever the original name contains, parsing gives them back. */
  lemma ParseStoredFilenameRoundTrip(time: nat, random: nat, originalname: string)
    ensures ParseStoredFilename(StoredFilename(UniqueSuffix(time, random), originalname))
         == Some(StoredName(time, random, originalname))
  {
    var t, r := Decimal.Show(time), Decimal.Show(random);
    assert StoredFilename(UniqueSuffix(time, random), originalname)
        == t + "-" + (r + "-" + originalname);
    ParseNumberedName(t, r, originalname);
    Decimal.ValueShow(time);
    Decimal.ValueShow(random);
  }

  /** Conversely, every name the parser accepts is the stored name of what it
      returns. */
  lemma ParsedStoredFilenameIsStoredName(name: string)
    requires ParseStoredFilename(name).Some?
    ensures var p := ParseStoredFilename(name).value;
            StoredFilename(UniqueSuffix(p.time, p.random), p.originalname) == name
  {
    var i := FindFirst(name, "-").value;
    var rest := name[i + 1..];
    var j := FindFirst(rest, "-").value;
    var t, r, tail := name[..i], rest[..j], rest[j + 1..];
    assert ParseStoredFilename(name) == Some(StoredName(Decimal.Value(t), Decimal.Value(r), tail));
    Decimal.ShowValue(t);
    Decimal.ShowValue(r);
    Reassemble(name, i, j);
  }

  /** A name with a dash at `i`, and another `j` places after it, is the text
      before the first dash, a dash, the text between, a dash and the rest. */
  lemma Reassemble(name: string, i: nat, j: nat)
    requires OccursAt(name, "-", i) && OccursAt(name[i + 1..], "-", j)
    ensures name == name[..i] + "-" + name[i + 1..][..j] + "-" + name[i + 1..][j + 1..]
  {
    var rest := name[i + 1..];
    SplitAtDash(name, i);
    SplitAtDash(rest, j);
    assert name[..i] + "-" + rest == name[..i] + "-" + rest[..j] + "-" + rest[j + 1..];
  }

  /** A text with a dash at `i` is what comes before it, the dash, and what follows. */
  lemma SplitAtDash(s: string, i: nat)
    requires OccursAt(s, "-", i)
    ensures s == s[..i] + "-" + s[i + 1..]
  {
    assert s[i] == s[i..i + 1][0];
  }

  /** The job names the file by its original name, which the stored file's name
      ends with, and the stored name still yields that original name. */
  lemma JobNamesStoredFile(f: UploadedFile, time: nat, random: nat)
    requires f.filename == StoredFilename(UniqueSuffix(time, random), f.originalname)
    ensures var job := UploadPdf(Some(f)).enqueued[0];
            && f.filename[|f.filename| - |job.data.filename|..] == job.data.filename
            && ParseStoredFilename(f.filename) == Some(StoredName(time, random, job.data.filename))
  {
    ParseStoredFilenameRoundTrip(time, random, f.originalname);
  }

  // ---------------------------------------------------------------------------
  // Chat

  /** What the generation service answered: a failure status with its body
      text, or success with the parsed JSON reply. */
  datatype Generation = NotOk(body: string) | Ok(data: Reply)

  /** The outside calls the handler makes, in order. */
  datatype Call = Retrieve(query: string) | Generate(prompt: string)

  datatype ChatOutcome = ChatOutcome(response: Response, calls: seq<Call>)

  /** The query counts as missing when it is absent or the empty string. */
  predicate MissingQuery(message: Option<string>) {
    message.None? || message.value == ""
  }

  /** `GET /chat`. `retrieve` stands for the top-2 similarity search over the
      vector store, `generate` for the request to the text-generation service. */
  function Chat(message: Option<string>, retrieve: string -> seq<Document>,
                generate: string -> Generation): (out: ChatOutcome)
    ensures out.response.status == 400 <==> MissingQuery(message)
    ensures MissingQuery(message) ==>
              out.response.body == ErrorBody("Missing user query") && out.calls == []
    ensures !MissingQuery(message) ==>
              var query := message.value;
              var prompt := BuildPrompt(RenderContext(retrieve(query)), query);
              && out.calls == [Retrieve(query), Generate(prompt)]
              && (generate(prompt).NotOk? ==>
                    out.response == Response(500, ErrorWithDetails("Hugging Face API failed",
                                                                   generate(prompt).body)))
              && (generate(prompt).Ok? ==>
                    && out.response.status == 200
                    && out.response.body.ChatReply?
                    && out.response.body.docs == retrieve(query)
                    && out.response.body.message
                       == ExtractAnswer(GeneratedText(generate(prompt).data))
                    && out.response.body.message != "")
  {
    if MissingQuery(message) then
      ChatOutcome(Response(400, ErrorBody("Missing user query")), [])
    else
      var query := message.value;
      var docs := retrieve(query);
      var prompt := BuildPrompt(RenderContext(docs), query);
      var calls := [Retrieve(query), Generate(prompt)];
      match generate(prompt)
      case NotOk(body) =>
        ChatOutcome(Response(500, ErrorWithDetails("Hugging Face API failed", body)), calls)
      case Ok(data) =>
        ChatOutcome(Response(200, ChatReply(ExtractAnswer(GeneratedText(data)), docs)), calls)
  }

  /** End to end: when the service returns the prompt followed by a reply (its
      default for text generation), and neither the retrieved documents, the
      query nor the reply contains the cue, the user gets the reply, trimmed,
      together with the documents. */
  lemma ChatReturnsEchoedReply(query: string, retrieve: string -> seq<Document>,
                               generate: string -> Generation, reply: string)
    requires query != ""
    requires forall d :: d in retrieve(query) ==> !Contains(d.pageContent, Cue)
    requires !Contains(query, Cue) && !Contains(reply, Cue)
    requires Trim(reply) != ""
    requires var prompt := BuildPrompt(RenderContext(retrieve(query)), query);
             generate(prompt) == Ok(Candidates([Candidate(Some(prompt + reply))]))
    ensures Chat(Some(query), retrieve, generate).response
         == Response(200, ChatReply(Trim(reply), retrieve(query)))
  {
    var prompt := BuildPrompt(RenderContext(retrieve(query)), query);
    EchoedReplyFromDocuments(retrieve(query), query, reply);
    assert GeneratedText(Candidates([Candidate(Some(prompt + reply))])) == Some(prompt + reply);
  }
}
