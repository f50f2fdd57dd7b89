/**
  The handling of one creation event, `PDFHandler.on_created`
  (main.py:90-105), with the send-then-log order of
  `send_email_with_attachment` (main.py:49-70). The send is an oracle: it
  either completes or fails, and a failure is an exception that leaves
  `on_created` before `log_success` is reached, so nothing is logged.
*/
module Pipeline {
  import opened Wrappers
  import opened Paths
  import opened EmailPattern
  import opened PdfExtraction
  import opened OutcomeLogging

  /** A creation event from the directory watcher. */
  datatype Event = Event(isDirectory: bool, srcPath: string)

  /**
    What happens to one call of `send_email_with_attachment`: reading the
    attachment, connecting, STARTTLS, login, sending and the QUIT on leaving
    the `with` block all succeed, or one of them raises. A QUIT answered
    with a code other than 221 raises after the relay accepted the message,
    so that message is delivered and still `Failed` here.
  */
  datatype Delivery = Delivered | Failed

  /** How one call of `on_created` ends. */
  datatype Outcome =
    | Ignored                        // not a new .pdf file: nothing happens
    | Sent(recipient: string)        // message sent, success logged
    | NoEmailFound                   // failure logged, file left for manual handling
    | SendRaised(recipient: string)  // the send raised: the exception escapes, nothing logged

  /**
    The filter of `on_created`: a file, not a directory, whose path ends in
    `.pdf` exactly. The base name of such a path, which is what gets logged,
    ends in `.pdf` too.
  */
  predicate IsNewPdf(ev: Event)
    ensures IsNewPdf(ev) ==> !ev.isDirectory && EndsWith(Basename(ev.srcPath), ".pdf")
  {
    BasenameKeepsSuffix(ev.srcPath, ".pdf");
    !ev.isDirectory && EndsWith(ev.srcPath, ".pdf")
  }

  /**
    The branching of `on_created`, given what extraction finds and what the
    send does. Only filtered events are handled, and any address a send is
    attempted for is the one extracted, of the pattern's shape.
  */
  function Decide(ev: Event, pdf: Pdf, delivery: Delivery): (o: Outcome)
    ensures o != Ignored ==> IsNewPdf(ev)
    ensures o.Sent? || o.SendRaised? ==>
      ExtractEmail(pdf) == Some(o.recipient) && IsEmailAddress(o.recipient)
  {
    ExtractedAddressShape(pdf);
    if !IsNewPdf(ev) then Ignored
    else
      var email := ExtractEmail(pdf);
      // `if email:` is Python truthiness: a found, non-empty string
      if email.Some? && email.value != "" then
        if delivery.Delivered? then Sent(email.value) else SendRaised(email.value)
      else NoEmailFound
  }

  /**
    The line `on_created` has appended once it ends with outcome `o`, if any;
    `name` is the base name of the event's path.
  */
  function RecordFor(name: string, o: Outcome, timestamp: string): (r: Option<Entry>)
    ensures r.Some? <==> o.Sent? || o.NoEmailFound?
    ensures r.Some? ==> r.value.fileName == name && r.value.timestamp == timestamp
    ensures r.Some? ==> (r.value.status == StatusSent <==> o.Sent?)
    ensures r.Some? && o.Sent? ==> r.value.email == o.recipient
  {
    match o
    case Sent(to) => Some(Entry(name, StatusSent, to, timestamp))
    case NoEmailFound => Some(Entry(name, StatusNoEmail, NoAddress, timestamp))
    case Ignored => None
    case SendRaised(_) => None
  }

  function LogAfter(f: LogFile, record: Option<Entry>): LogFile {
    if record.Some? then Write(f, record.value) else f
  }

  /**
    The outcome of an event in terms of the extraction result alone: ignored
    exactly when the event is filtered out; sent or raised exactly when an
    address was found (the relay decides which); no-email exactly when none was.
  */
  lemma DecideCases(ev: Event, pdf: Pdf, delivery: Delivery)
    ensures Decide(ev, pdf, delivery) == Ignored <==> !IsNewPdf(ev)
    ensures Decide(ev, pdf, delivery) == NoEmailFound <==> IsNewPdf(ev) && ExtractEmail(pdf).None?
    ensures Decide(ev, pdf, delivery).Sent? <==>
      IsNewPdf(ev) && ExtractEmail(pdf).Some? && delivery.Delivered?
    ensures Decide(ev, pdf, delivery).SendRaised? <==>
      IsNewPdf(ev) && ExtractEmail(pdf).Some? && delivery.Failed?
    ensures Decide(ev, pdf, delivery).Sent? || Decide(ev, pdf, delivery).SendRaised? ==>
      ExtractEmail(pdf) == Some(Decide(ev, pdf, delivery).recipient)
  {
    ExtractedAddressShape(pdf);
  }

  /** The suffix test is case-sensitive: a path ending in `.PDF` is ignored. */
  lemma UpperCaseSuffixIgnored(ev: Event, pdf: Pdf, delivery: Delivery)
    requires EndsWith(ev.srcPath, ".PDF")
    ensures Decide(ev, pdf, delivery) == Ignored
  {
  }

  /**
    What reaches the log: nothing for a filtered event or a raising send;
    otherwise exactly one record, after the header line when the file did
    not exist, with the base name of the path, and either
    "Email sent" with the address sent to, or "No email found" with "N/A".
  */
  lemma LoggedRecord(ev: Event, pdf: Pdf, delivery: Delivery, timestamp: string)
    ensures RecordFor(Basename(ev.srcPath), Decide(ev, pdf, delivery), timestamp) ==
      if !IsNewPdf(ev) then None
      else if ExtractEmail(pdf).None? then
        Some(Entry(Basename(ev.srcPath), StatusNoEmail, NoAddress, timestamp))
      else if delivery.Delivered? then
        Some(Entry(Basename(ev.srcPath), StatusSent, ExtractEmail(pdf).value, timestamp))
      else None
  {
    DecideCases(ev, pdf, delivery);
  }

  /**
    A line the handler writes carries one of the program's two statuses and,
    when no field holds a comma or a line break, is one line of the file and
    reads back as its four fields.
  */
  lemma RecordReadsBack(name: string, o: Outcome, timestamp: string)
    requires ',' !in name && ',' !in timestamp
    requires '\n' !in name && '\n' !in timestamp
    requires o.Sent? ==> ',' !in o.recipient && '\n' !in o.recipient
    ensures RecordFor(name, o, timestamp).Some? ==>
      var e := RecordFor(name, o, timestamp).value;
      (e.status == StatusSent || e.status == StatusNoEmail) &&
      ReadLines(Contents([FormatLine(e)])) == [FormatLine(e)] &&
      SplitFields(FormatLine(e)) == [name, e.status, e.email, timestamp]
  {
    FixedFieldsPlain();
    match o
    case Sent(to) => LineRoundTrip(Entry(name, StatusSent, to, timestamp));
    case NoEmailFound => LineRoundTrip(Entry(name, StatusNoEmail, NoAddress, timestamp));
    case Ignored =>
    case SendRaised(_) =>
  }

  /**
    A logged line is one line of the file and reads back as its four fields
    whenever the file's base name and the timestamp hold no comma and no line
    break: an extracted address never holds either.
  */
  lemma LoggedLineReadsBack(ev: Event, pdf: Pdf, delivery: Delivery, timestamp: string)
    requires ',' !in Basename(ev.srcPath) && ',' !in timestamp
    requires '\n' !in Basename(ev.srcPath) && '\n' !in timestamp
    ensures RecordFor(Basename(ev.srcPath), Decide(ev, pdf, delivery), timestamp).Some? ==>
      var e := RecordFor(Basename(ev.srcPath), Decide(ev, pdf, delivery), timestamp).value;
      (e.status == StatusSent || e.status == StatusNoEmail) &&
      ReadLines(Contents([FormatLine(e)])) == [FormatLine(e)] &&
      SplitFields(FormatLine(e)) == [Basename(ev.srcPath), e.status, e.email, timestamp]
  {
    var o := Decide(ev, pdf, delivery);
    if o.Sent? {
      EmailAddressShape(o.recipient);
    }
    RecordReadsBack(Basename(ev.srcPath), o, timestamp);
  }

  /**
    `send_email_with_attachment`: the message goes to the relay first; only
    if that returns is the success logged. A failure anywhere in the send
    raises, leaving the log as it was.
  */
  method SendEmailWithAttachment(log: OutcomeLog, toEmail: string, pdfPath: string,
                                 delivery: Delivery, timestamp: string) returns (raised: bool)
    requires log.Valid()
    modifies log
    ensures log.Valid()
    ensures raised <==> delivery.Failed?
    ensures log.File() ==
      if raised then old(log.File())
      else Write(old(log.File()), Entry(Basename(pdfPath), StatusSent, toEmail, timestamp))
  {
    if delivery.Failed? {
      return true;
    }
    log.LogSuccess(pdfPath, toEmail, timestamp);
    return false;
  }

  /**
    `on_created`. Besides the outcome it returns the address
    `send_email_with_attachment` was called with, if it was called.
  */
  method OnCreated(log: OutcomeLog, ev: Event, pdf: Pdf, delivery: Delivery, timestamp: string)
    returns (outcome: Outcome, relayedTo: Option<string>)
    requires log.Valid()
    modifies log
    ensures log.Valid()
    ensures outcome == Decide(ev, pdf, delivery)
    ensures relayedTo == if outcome.Sent? || outcome.SendRaised? then Some(outcome.recipient) else None
    ensures log.File() == LogAfter(old(log.File()), RecordFor(Basename(ev.srcPath), outcome, timestamp))
  {
    if ev.isDirectory || !EndsWith(ev.srcPath, ".pdf") {
      return Ignored, None;
    }
    var email := ExtractEmailFromPdf(pdf);
    if email.Some? && email.value != "" {
      var raised := SendEmailWithAttachment(log, email.value, ev.srcPath, delivery, timestamp);
      relayedTo := Some(email.value);
      outcome := if raised then SendRaised(email.value) else Sent(email.value);
    } else {
      log.LogFailure(ev.srcPath, timestamp);
      outcome, relayedTo := NoEmailFound, None;
    }
  }
}
