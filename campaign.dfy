/**
 * The orchestrator (`main`): load the pending records, cap them at 30, stop
 * when none are left, fetch the variants, batch by 10, send at most five
 * batches with a pause between consecutive ones, then write the statuses
 * back once. Every error is caught and ends the run.
 */
module Campaign {
  import opened Outcomes
  import opened Seqs
  import opened Cells
  import opened Workbook
  import opened LoadUnsent
  import opened Variants
  import opened Batching
  import opened Sender
  import opened StatusUpdate

  const RunCap: nat := 30
  const BatchSize: nat := 10
  const MaxBatches: nat := 5

  /** Passed to the sender as the resume attachment's path. */
  const ResumeLink: string := "https://drive.google.com/file/d/14pEaC7-svetAUzXRZYsnM09cW3VzH2r2/view?usp=sharing "

  const BaseSubject: string := "Seeking Opportunity in SDE / Full Stack / AI Intern"

  const BaseBody: string :=
    "Hi,\n\nI enjoy solving problems and am looking for opportunities to work on real-world projects "
    + "while growing as an engineer. You can find my resume here for any SDE / Full Stack / AI roles "
    + "you might have:\n\nResume: " + ResumeLink
    + "\n\nLooking forward to contributing to your team.\n\nThanks & Regards,\nSurya Janardhan"

  /** `allUnsentEmails.slice(0, 30)`: the first 30 pending records, in their order. */
  function Capped(pending: seq<Record>): (r: seq<Record>)
    ensures |r| == if |pending| < RunCap then |pending| else RunCap
    ensures r == pending[..|r|]
  {
    if |pending| <= RunCap then pending else pending[..RunCap]
  }

  /** `variants[i] || base`: an empty or missing variant gives way to the base text. */
  function Pick(variants: seq<string>, i: nat, base: string): (s: string)
    ensures s == base || (i < |variants| && s == variants[i])
    ensures s == "" ==> base == ""
    ensures i < |variants| && variants[i] != "" ==> s == variants[i]
  {
    if i < |variants| && variants[i] != "" then variants[i] else base
  }

  /** `Math.min(batches.length, 5)`: how many batches the loop sends. */
  function ProcessedCount(batchCount: nat): (n: nat)
    ensures n <= batchCount && n <= MaxBatches
    ensures n == batchCount || n == MaxBatches
  {
    if batchCount < MaxBatches then batchCount else MaxBatches
  }

  /** `i < batches.length - 1 && i < 4`: the loop pauses after batch `i`. */
  predicate PauseAfter(i: nat, batchCount: nat)
  {
    i < batchCount - 1 && i < MaxBatches - 1
  }

  /** A pause follows a sent batch exactly when another sent batch comes after it. */
  lemma PausesBetweenBatches(i: nat, batchCount: nat)
    requires i < ProcessedCount(batchCount)
    ensures PauseAfter(i, batchCount) <==> i + 1 < ProcessedCount(batchCount)
  {
  }

  /** 0, 1, ..., m - 1. */
  function Range(m: int): (r: seq<nat>)
    ensures |r| == if m < 0 then 0 else m
    ensures forall k :: 0 <= k < |r| ==> r[k] == k
  {
    if m <= 0 then [] else Range(m - 1) + [m - 1]
  }

  /** The pending list of a run, or [] when the load failed. */
  function RunPending(sheet: Option<Sheet>, loadOracle: ReadOracle): seq<Record>
  {
    var loaded := LoadResult(sheet, None, loadOracle);
    if loaded.Ok? then Capped(loaded.value) else []
  }

  /** The messages the loop submits: batch `i`'s entries under variant `i`, or the base text. */
  predicate MailsFollowBatches(mails: seq<seq<Mail>>, batches: seq<seq<Record>>, v: Variants, sender: string, n: nat)
  {
    |mails| == n && n <= |batches| &&
    forall i :: 0 <= i < n ==>
      |mails[i]| == |batches[i]| &&
      forall j :: 0 <= j < |batches[i]| ==>
        mails[i][j] == MailFor(sender, batches[i][j], Pick(v.subjects, i, BaseSubject), Pick(v.bodies, i, BaseBody), ResumeLink)
  }

  /** The addresses each of the first `n` batches reports as sent, batch `i` under transport verdicts `transport(i)`. */
  function SentPerBatch(batches: seq<seq<Record>>, transport: nat -> nat -> bool, n: nat): (r: seq<seq<Cell>>)
    requires n <= |batches|
    ensures |r| == n
  {
    seq(n, i requires 0 <= i < n => Delivered(batches[i], transport(i)))
  }

  /** With at most 30 records in batches of 10 there are at most three batches, so the limit of five never cuts a run short. */
  lemma CapKeepsAllBatches(pending: seq<Record>, batches: seq<seq<Record>>)
    requires |pending| <= RunCap
    requires IsBatching(batches, pending, BatchSize)
    ensures |batches| <= 3
    ensures ProcessedCount(|batches|) == |batches|
  {
    BatchCount(batches, pending, BatchSize);
  }

  /**
   * An address reaches the status update exactly when some entry of a sent
   * batch carries it and that entry's send succeeded.
   */
  lemma SentAreConfirmed(batches: seq<seq<Record>>, transport: nat -> nat -> bool, n: nat, x: Cell)
    requires n <= |batches|
    ensures x in Flatten(SentPerBatch(batches, transport, n)) <==>
              exists i, j :: 0 <= i < n && 0 <= j < |batches[i]| && transport(i)(j) && EmailOf(batches[i][j]) == x
  {
    var per := SentPerBatch(batches, transport, n);
    FlattenMembers(per, x);
    forall i | 0 <= i < n
      ensures x in per[i] <==> exists j :: 0 <= j < |batches[i]| && transport(i)(j) && EmailOf(batches[i][j]) == x
    {
      DeliveredMembers(batches[i], transport(i), |batches[i]|, x);
    }
  }

  /**
   * Failure isolation: when batch `failed` is rejected entirely and every
   * other batch goes through, the collected list is the addresses of all the
   * other batches, in order.
   */
  lemma {:induction false} FailureIsolation(batches: seq<seq<Record>>, transport: nat -> nat -> bool, n: nat, failed: nat)
    requires failed < n <= |batches|
    requires forall j :: 0 <= j < |batches[failed]| ==> !transport(failed)(j)
    requires forall i, j :: 0 <= i < n && i != failed && 0 <= j < |batches[i]| ==> transport(i)(j)
    ensures Flatten(SentPerBatch(batches, transport, n)) ==
              Flatten(seq(n, i requires 0 <= i < n => if i == failed then [] else Emails(batches[i])))
  {
    var expected := seq(n, i requires 0 <= i < n => if i == failed then [] else Emails(batches[i]));
    forall i | 0 <= i < n
      ensures SentPerBatch(batches, transport, n)[i] == expected[i]
    {
      DeliveredExtremes(batches[i], transport(i), |batches[i]|);
      assert Emails(batches[i])[..|batches[i]|] == Emails(batches[i]);
    }
    assert SentPerBatch(batches, transport, n) == expected;
  }

  /** The sent list is never longer than the records the sent batches hold. */
  lemma {:induction false} SentBound(batches: seq<seq<Record>>, transport: nat -> nat -> bool, n: nat)
    requires n <= |batches|
    ensures |Flatten(SentPerBatch(batches, transport, n))| <= |Flatten(batches[..n])|
  {
    if n > 0 {
      SentBound(batches, transport, n - 1);
      assert SentPerBatch(batches, transport, n) == SentPerBatch(batches, transport, n - 1) + [Delivered(batches[n - 1], transport(n - 1))];
      FlattenAppend(SentPerBatch(batches, transport, n - 1), Delivered(batches[n - 1], transport(n - 1)));
      assert batches[..n] == batches[..n - 1] + [batches[n - 1]];
      FlattenAppend(batches[..n - 1], batches[n - 1]);
      DeliveredSubsequence(batches[n - 1], transport(n - 1), |batches[n - 1]|);
    }
  }

  /** A sheet whose every record is marked sent yields an empty run. */
  lemma AllMarkedMeansNothingPending(sheet: Sheet, loadOracle: ReadOracle)
    requires loadOracle.plainReadOk
    requires forall r :: r in DataRecords(sheet) ==> !IsPending(r)
    ensures LoadResult(Some(sheet), None, loadOracle) == Ok([])
    ensures RunPending(Some(sheet), loadOracle) == []
  {
    var data := DataRecords(sheet);
    UnsentAllSent(data);
  }

  /**
   * The batch loop of `main`: batch `i` is sent with variant `i` (or the
   * base text), its sent addresses are appended in order, and a pause
   * follows every batch but the last one sent.
   */
  method SendBatches(batches: seq<seq<Record>>, variants: Variants, transport: nat -> nat -> bool, sender: string)
    returns (mails: seq<seq<Mail>>, allSentEmails: seq<Cell>, pauses: seq<nat>)
    ensures MailsFollowBatches(mails, batches, variants, sender, ProcessedCount(|batches|))
    ensures allSentEmails == Flatten(SentPerBatch(batches, transport, ProcessedCount(|batches|)))
    ensures pauses == Range(ProcessedCount(|batches|) - 1)
  {
    ghost var n := ProcessedCount(|batches|);
    allSentEmails, mails, pauses := [], [], [];
    var i := 0;
    while i < |batches| && i < MaxBatches
      invariant 0 <= i <= n
      invariant MailsFollowBatches(mails, batches, variants, sender, i)
      invariant allSentEmails == Flatten(SentPerBatch(batches, transport, i))
      invariant pauses == Range(if i == n && n > 0 then n - 1 else i)
    {
      var batch := batches[i];
      var subject := Pick(variants.subjects, i, BaseSubject);
      var body := Pick(variants.bodies, i, BaseBody);
      var batchMails, sentEmails := SendEmails(batch, subject, body, ResumeLink, sender, transport(i));
      mails := mails + [batchMails];
      FlattenAppend(SentPerBatch(batches, transport, i), sentEmails);
      assert SentPerBatch(batches, transport, i + 1) == SentPerBatch(batches, transport, i) + [sentEmails];
      allSentEmails := allSentEmails + sentEmails;
      if i < |batches| - 1 && i < MaxBatches - 1 {
        pauses := pauses + [i];
      }
      i := i + 1;
    }

  }

  datatype Outcome = LoadFailed(loadError: WorkbookError) | NothingPending
                   | UpdateFailed(updateError: WorkbookError) | Done(updatedCount: nat)

  /** What a run did: reads, whether the model was asked, messages per batch, addresses sent, pauses, status write. */
  datatype Report = Report(loadAttempts: seq<ReadAttempt>, llmCalled: bool, mails: seq<seq<Mail>>,
                           sentEmails: seq<Cell>, pauses: seq<nat>, updateAttempts: seq<ReadAttempt>,
                           writes: seq<WriteAttempt>, outcome: Outcome)

  /**
   * `main`. `loadOracle` and `updateOracle` decide the two file reads,
   * `llm` is the model's parsed answer, `prepareBatches` is the chunking
   * step whose contract is assumed, `transport(i)(j)` decides attempt `j` of
   * batch `i`, `writeOk` the final write, `sender` the sending account.
   */
  method RunCampaign(file: XlsxFile, loadOracle: ReadOracle, llm: Option<Parsed>,
              prepareBatches: (seq<Record>, nat) -> seq<seq<Record>>,
              transport: nat -> nat -> bool, updateOracle: ReadOracle, writeOk: bool, sender: string)
    returns (report: Report)
    requires forall xs: seq<Record> :: IsBatching(prepareBatches(xs, BatchSize), xs, BatchSize)
    modifies file
    ensures report.loadAttempts == OpenWorkbook(None, loadOracle).attempts
    ensures LoadResult(old(file.sheet), None, loadOracle).Err? ==>
              report == Report(report.loadAttempts, false, [], [], [], [], [],
                               LoadFailed(LoadResult(old(file.sheet), None, loadOracle).error))
    ensures LoadResult(old(file.sheet), None, loadOracle).Ok? && RunPending(old(file.sheet), loadOracle) == [] ==>
              report == Report(report.loadAttempts, false, [], [], [], [], [], NothingPending)
    ensures RunPending(old(file.sheet), loadOracle) != [] ==>
              var batches := prepareBatches(RunPending(old(file.sheet), loadOracle), BatchSize);
              var n := ProcessedCount(|batches|);
              report.llmCalled &&
              MailsFollowBatches(report.mails, batches, GenerateEmailVariants(BaseSubject, BaseBody, llm), sender, n) &&
              report.sentEmails == Flatten(SentPerBatch(batches, transport, n)) &&
              report.pauses == Range(n - 1) &&
              report.updateAttempts == OpenWorkbook(None, updateOracle).attempts
    ensures RunPending(old(file.sheet), loadOracle) != [] ==>
              report.writes == if updateOracle.plainReadOk then [WriteAttempt(None)] else []
    ensures report.outcome.UpdateFailed? ==>
              report.outcome.updateError == if updateOracle.plainReadOk then WriteFailed else ReadFailed
    ensures report.outcome.UpdateFailed? <==>
              RunPending(old(file.sheet), loadOracle) != [] && !(updateOracle.plainReadOk && writeOk)
    ensures report.outcome.Done? <==>
              RunPending(old(file.sheet), loadOracle) != [] && updateOracle.plainReadOk && writeOk
    ensures report.outcome.Done? ==>
              old(file.sheet).Some? &&
              file.sheet == Some(MarkedSheet(old(file.sheet).value, report.sentEmails)) &&
              file.protection == None &&
              report.outcome.updatedCount == CountMatches(old(file.sheet).value, report.sentEmails, |old(file.sheet).value|)
    ensures !report.outcome.Done? ==> unchanged(file)
  {
    var loadAttempts, loaded := LoadUnsentEmails(file, None, loadOracle);
    if loaded.Err? {
      assert RunPending(old(file.sheet), loadOracle) == [];
      return Report(loadAttempts, false, [], [], [], [], [], LoadFailed(loaded.error));
    }
    var unsentEmails := Capped(loaded.value);
    if |unsentEmails| == 0 {
      assert RunPending(old(file.sheet), loadOracle) == [];
      return Report(loadAttempts, false, [], [], [], [], [], NothingPending);
    }

    var variants := GenerateEmailVariants(BaseSubject, BaseBody, llm);
    var batches := prepareBatches(unsentEmails, BatchSize);
    var mails, allSentEmails, pauses := SendBatches(batches, variants, transport, sender);

    assert file.sheet.Some? && unsentEmails == RunPending(file.sheet, loadOracle);
    assert !Provided(None) && ReadPassword(None, None) == None && WritePassword(None) == None;
    assert OpenWorkbook(None, updateOracle).loaded == updateOracle.plainReadOk;
    var updateAttempts, writes, updated := UpdateSentStatus(file, allSentEmails, None, None, updateOracle, writeOk);
    assert updated.Ok? <==> updateOracle.plainReadOk && writeOk;
    var outcome := if updated.Ok? then Done(updated.value) else UpdateFailed(updated.error);
    report := Report(loadAttempts, true, mails, allSentEmails, pauses, updateAttempts, writes, outcome);
  }
}
