/**
 * Phase 3: send one message per batch entry, each blind-copied to that
 * entry's address, and collect the addresses whose send did not throw.
 */
module Sender {
  import opened Seqs
  import opened Cells
  import opened LoadUnsent

  /** The file name every message's attachment carries. */
  const ResumeFileName: string := "resume.pdf"

  datatype Attachment = Attachment(filename: string, path: string)

  /** The options handed to `transporter.sendMail`. */
  datatype Mail = Mail(from: string, bcc: Cell, subject: string, text: string, attachments: seq<Attachment>)

  /** `emailObj.email`. */
  function EmailOf(rec: Record): Cell
  {
    Field(rec, "email")
  }

  /** The message for one entry: its single address on the blind-copy line, subject and body verbatim, the resume attached. */
  function MailFor(sender: string, rec: Record, subject: string, body: string, resumePath: string): (m: Mail)
    ensures m.bcc == EmailOf(rec) && m.subject == subject && m.text == body && m.from == sender
    ensures m.attachments == [Attachment(ResumeFileName, resumePath)]
  {
    Mail(sender, EmailOf(rec), subject, body, [Attachment(ResumeFileName, resumePath)])
  }

  /** The addresses of a batch, in order. */
  function Emails(batch: seq<Record>): (es: seq<Cell>)
    ensures |es| == |batch|
    ensures forall j :: 0 <= j < |batch| ==> es[j] == EmailOf(batch[j])
  {
    seq(|batch|, j requires 0 <= j < |batch| => EmailOf(batch[j]))
  }

  /** The addresses of the first `k` entries whose attempt succeeded, in order. */
  function DeliveredUpTo(batch: seq<Record>, succeeds: nat -> bool, k: nat): seq<Cell>
    requires k <= |batch|
  {
    if k == 0 then []
    else DeliveredUpTo(batch, succeeds, k - 1) + (if succeeds(k - 1) then [EmailOf(batch[k - 1])] else [])
  }

  /** What `sendEmails` returns when attempt `j` succeeds exactly when `succeeds(j)`. */
  function Delivered(batch: seq<Record>, succeeds: nat -> bool): seq<Cell>
  {
    DeliveredUpTo(batch, succeeds, |batch|)
  }

  /** An address is returned exactly when some entry with that address was sent successfully. */
  lemma {:induction false} DeliveredMembers(batch: seq<Record>, succeeds: nat -> bool, k: nat, x: Cell)
    requires k <= |batch|
    ensures x in DeliveredUpTo(batch, succeeds, k) <==>
              exists j :: 0 <= j < k && succeeds(j) && EmailOf(batch[j]) == x
  {
    if k > 0 {
      DeliveredMembers(batch, succeeds, k - 1, x);
      if x in DeliveredUpTo(batch, succeeds, k - 1) {
        var j :| 0 <= j < k - 1 && succeeds(j) && EmailOf(batch[j]) == x;
        assert 0 <= j < k;
      }
    }
  }

  /** The result keeps batch order and drops only failed entries: a subsequence of the batch's addresses. */
  lemma {:induction false} DeliveredSubsequence(batch: seq<Record>, succeeds: nat -> bool, k: nat)
    requires k <= |batch|
    ensures IsSubsequence(DeliveredUpTo(batch, succeeds, k), Emails(batch)[..k])
    ensures |DeliveredUpTo(batch, succeeds, k)| <= k
  {
    if k > 0 {
      DeliveredSubsequence(batch, succeeds, k - 1);
      assert Emails(batch)[..k] == Emails(batch)[..k - 1] + [EmailOf(batch[k - 1])];
      var prev := DeliveredUpTo(batch, succeeds, k - 1);
      assert DeliveredUpTo(batch, succeeds, k) == if succeeds(k - 1) then prev + [EmailOf(batch[k - 1])] else prev;
      SubsequenceExtend(prev, Emails(batch)[..k - 1], EmailOf(batch[k - 1]), succeeds(k - 1));
    }
  }

  /** The result holds one address per successful attempt, duplicates kept. */
  lemma {:induction false} DeliveredCount(batch: seq<Record>, succeeds: nat -> bool, k: nat)
    requires k <= |batch|
    ensures |DeliveredUpTo(batch, succeeds, k)| == |set j: nat | j < k && succeeds(j)|
  {
    if k > 0 {
      DeliveredCount(batch, succeeds, k - 1);
      var before := set j: nat | j < k - 1 && succeeds(j);
      if succeeds(k - 1) {
        assert (set j: nat | j < k && succeeds(j)) == before + {k - 1};
      } else {
        assert (set j: nat | j < k && succeeds(j)) == before;
      }
    } else {
      assert (set j: nat | j < k && succeeds(j)) == {};
    }
  }

  /** When every attempt succeeds the result is the whole address list; when all fail it is empty. */
  lemma {:induction false} DeliveredExtremes(batch: seq<Record>, succeeds: nat -> bool, k: nat)
    requires k <= |batch|
    ensures (forall j :: 0 <= j < k ==> succeeds(j)) ==> DeliveredUpTo(batch, succeeds, k) == Emails(batch)[..k]
    ensures (forall j :: 0 <= j < k ==> !succeeds(j)) ==> DeliveredUpTo(batch, succeeds, k) == []
  {
    if k > 0 {
      DeliveredExtremes(batch, succeeds, k - 1);
      assert Emails(batch)[..k] == Emails(batch)[..k - 1] + [EmailOf(batch[k - 1])];
    }
  }

  /**
   * `sendEmails`: one `sendMail` per entry in batch order, a throw caught
   * and skipped. `succeeds(j)` is the transport's verdict on attempt `j`.
   */
  method SendEmails(batch: seq<Record>, subject: string, body: string, resumePath: string,
                    sender: string, succeeds: nat -> bool)
    returns (mails: seq<Mail>, sentEmails: seq<Cell>)
    ensures |mails| == |batch|
    ensures forall j :: 0 <= j < |batch| ==> mails[j] == MailFor(sender, batch[j], subject, body, resumePath)
    ensures sentEmails == Delivered(batch, succeeds)
  {
    mails, sentEmails := [], [];
    var j := 0;
    while j < |batch|
      invariant 0 <= j <= |batch|
      invariant |mails| == j
      invariant forall i :: 0 <= i < j ==> mails[i] == MailFor(sender, batch[i], subject, body, resumePath)
      invariant sentEmails == DeliveredUpTo(batch, succeeds, j)
    {
      var emailObj := batch[j];
      var mailOptions := MailFor(sender, emailObj, subject, body, resumePath);
      mails := mails + [mailOptions];
      if succeeds(j) {
        sentEmails := sentEmails + [EmailOf(emailObj)];
      }
      j := j + 1;
    }
  }
}
