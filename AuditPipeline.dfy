/**
 * The two ends of the `employee_events` topic together: every message the
 * employee service sends is one the audit consumer accepts, and the row it
 * writes names exactly the event's kind and employee id.
 */
module AuditPipeline {
  import opened Wrappers
  import opened JavaString
  import opened EmployeeServiceImpl
  import opened KafkaConsumerServiceImpl

  lemma KindNameAvoidsDelimiter(kind: EventKind)
    ensures !Contains(KindName(kind), Delimiter)
  {
    CharAbsent(KindName(kind), Delimiter);
  }

  lemma IdTextAvoidsDelimiter(id: int)
    ensures !Contains(LongToString(id), Delimiter)
  {
    CharAbsent(LongToString(id), Delimiter);
  }

  /** Every message the service sends parses back to its kind and its id in decimal. */
  lemma EventRoundTrip(kind: EventKind, id: int)
    ensures Parse(EventMessage(kind, id)) == Some((KindName(kind), LongToString(id)))
  {
    KindNameAvoidsDelimiter(kind);
    IdTextAvoidsDelimiter(id);
    var message := EventMessage(kind, id);
    assert message == KindName(kind) + Delimiter + LongToString(id) + Repeat(Delimiter, 0);
    ParseIff(message, KindName(kind), LongToString(id));
  }

  /** Different events are written as different audit rows: the row determines the kind and the id. */
  lemma EventsAreDistinguishable(kind1: EventKind, id1: int, kind2: EventKind, id2: int)
    ensures Parse(EventMessage(kind1, id1)) == Parse(EventMessage(kind2, id2)) ==> kind1 == kind2 && id1 == id2
  {
    EventRoundTrip(kind1, id1);
    EventRoundTrip(kind2, id2);
    LongToStringInjective(id1, id2);
  }

  /**
   * One delivery over the topic: the consumer receives `message`, which the
   * service sent for an event of `kind` on `id`, and appends exactly one row
   * with that kind and id.
   */
  method Deliver(consumer: AuditConsumer, message: string, kind: EventKind, id: int, now: string)
    requires message == EventMessage(kind, id)
    requires consumer.Valid()
    modifies consumer
    ensures consumer.Valid()
    ensures consumer.entries ==
      old(consumer.entries) + [AuditLog(old(consumer.nextId), KindName(kind), EntityName, LongToString(id), now)]
    ensures consumer.nextId == old(consumer.nextId) + 1
  {
    EventRoundTrip(kind, id);
    consumer.Consume(message, now);
  }
}
