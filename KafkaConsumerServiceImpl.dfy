/**
 * The audit consumer: each message from the `employee_events` topic that
 * reads as `<event type>: <entity id>` becomes one row of the `audit_logs`
 * table; any other message is only reported and dropped.
 */
module KafkaConsumerServiceImpl {
  import opened Wrappers
  import opened JavaString

  /** An `audit_logs` row, fields in the order the entity declares them. */
  datatype AuditLog = AuditLog(id: int, eventType: string, entityName: string, entityId: string, timestamp: string)

  /** The separator between event type and entity id. */
  const Delimiter: string := ": "

  /** The entity name every audit row records. */
  const EntityName: string := "Employee"

  /**
   * The checks `consume` makes before writing: the message contains the
   * delimiter, and splitting on it gives exactly two parts, the event type
   * and the entity id.
   */
  function Parse(message: string): (r: Option<(string, string)>)
  {
    if !Contains(message, Delimiter) then None
    else
      var parts := Split(message, Delimiter);
      if |parts| == 2 then Some((parts[0], parts[1])) else None
  }

  lemma DelimiterIsBorderFree()
    ensures BorderFree(Delimiter)
  {
    assert Delimiter[..1][0] != Delimiter[1..][0];
  }

  lemma {:induction false} JoinPair(t: string, e: string, k: nat)
    ensures Join([t, e] + Blanks(k), Delimiter) == t + Delimiter + e + Repeat(Delimiter, k)
  {
    assert [t, e] + Blanks(k) == [t] + ([e] + Blanks(k));
    assert ([t] + ([e] + Blanks(k)))[1..] == [e] + Blanks(k);
    JoinWithBlanks(e, Delimiter, k);
  }

  /** What an accepted message is made of: the two parts, joined by `": "`, then only further `": "`. */
  lemma AcceptedShape(message: string)
    requires Parse(message).Some?
    ensures var (t, e) := Parse(message).value;
      && !Contains(t, Delimiter) && !Contains(e, Delimiter) && e != ""
      && exists k: nat :: message == t + Delimiter + e + Repeat(Delimiter, k)
  {
    var (t, e) := Parse(message).value;
    var ps := Pieces(message, Delimiter);
    var k: nat := |ps| - 2;
    assert ps == [t, e] + Blanks(k) by {
      assert DropTrailingEmpty(ps) == [t, e];
      DropTrailingEmptyShape(ps);
    }
    assert !Contains(t, Delimiter) && !Contains(e, Delimiter) by {
      PiecesAvoidDelimiter(message, Delimiter);
      assert t in ps && e in ps;
    }
    assert message == t + Delimiter + e + Repeat(Delimiter, k) by {
      JoinOfPieces(message, Delimiter);
      JoinPair(t, e, k);
    }
  }

  /** The pieces of a message of the accepted shape are its two parts, then empty pieces. */
  lemma ShapePieces(t: string, e: string, k: nat)
    requires !Contains(t, Delimiter) && !Contains(e, Delimiter)
    ensures Pieces(t + Delimiter + e + Repeat(Delimiter, k), Delimiter) == [t, e] + Blanks(k)
  {
    var xs := [t, e] + Blanks(k);
    DelimiterIsBorderFree();
    JoinPair(t, e, k);
    forall i | 0 <= i < |xs|
      ensures !Contains(xs[i], Delimiter)
    {
      if i >= 2 {
        assert xs[i] == "";
      }
    }
    PiecesOfJoin(xs, Delimiter);
  }

  /** A message of the accepted shape has its first match right after the event type. */
  lemma ShapeMatches(t: string, e: string, k: nat)
    requires !Contains(t, Delimiter)
    ensures IndexOf(t + Delimiter + e + Repeat(Delimiter, k), Delimiter) == Some(|t|)
  {
    DelimiterIsBorderFree();
    FirstOccurrence(t, e + Repeat(Delimiter, k), Delimiter);
    assert t + Delimiter + e + Repeat(Delimiter, k) == t + Delimiter + (e + Repeat(Delimiter, k));
  }

  /** Every message of that shape is accepted, with those two parts. */
  lemma ShapeAccepted(t: string, e: string, k: nat)
    requires !Contains(t, Delimiter) && !Contains(e, Delimiter) && e != ""
    ensures Parse(t + Delimiter + e + Repeat(Delimiter, k)) == Some((t, e))
  {
    ShapePieces(t, e, k);
    ShapeMatches(t, e, k);
    DropBlanks([t, e], k);
  }

  /**
   * Exactly which messages are written, and as what: a message parses to
   * `(t, e)` if and only if it is `t + ": " + e` followed by any number of
   * further `": "`, where neither `t` nor `e` contains `": "` and `e` is not
   * empty. The trailing delimiters are accepted because `split` drops the
   * empty pieces after them.
   */
  lemma ParseIff(message: string, t: string, e: string)
    ensures Parse(message) == Some((t, e)) <==>
      && !Contains(t, Delimiter) && !Contains(e, Delimiter) && e != ""
      && exists k: nat :: message == t + Delimiter + e + Repeat(Delimiter, k)
  {
    if Parse(message) == Some((t, e)) {
      AcceptedShape(message);
    }
    if && !Contains(t, Delimiter) && !Contains(e, Delimiter) && e != ""
       && exists k: nat :: message == t + Delimiter + e + Repeat(Delimiter, k)
    {
      var k: nat :| message == t + Delimiter + e + Repeat(Delimiter, k);
      ShapeAccepted(t, e, k);
    }
  }

  /** The message of the source's own examples is written as `("CREATE", "42")`. */
  lemma ParseCreate42()
    ensures Parse("CREATE: 42") == Some(("CREATE", "42"))
  {
    var t, e := "CREATE", "42";
    CharAbsent(t, Delimiter);
    CharAbsent(e, Delimiter);
    ShapeAccepted(t, e, 0);
    var m := t + Delimiter + e + Repeat(Delimiter, 0);
    assert m == "CREATE: 42";
  }

  /** A trailing delimiter is dropped with the empty piece after it. */
  lemma ParseTrailingDelimiter()
    ensures Parse("A: B: ") == Some(("A", "B"))
  {
    var t, e := "A", "B";
    CharAbsent(t, Delimiter);
    CharAbsent(e, Delimiter);
    ShapeAccepted(t, e, 1);
    var m := t + Delimiter + e + Repeat(Delimiter, 1);
    assert m == "A: B: ";
  }

  /** Any message without the delimiter is dropped. */
  lemma ParseNoDelimiter(message: string)
    requires !Contains(message, Delimiter)
    ensures Parse(message) == None
  {
  }

  /** A message with no `':'` at all, such as `"garbage"`, has no delimiter and is dropped. */
  lemma ParseGarbage()
    ensures Parse("garbage") == None
  {
    CharAbsent("garbage", Delimiter);
    ParseNoDelimiter("garbage");
  }

  /** Three pieces: dropped. */
  lemma ParseThreeParts()
    ensures Parse("A: B: C") == None
  {
    DelimiterIsBorderFree();
    CharAbsent("A", Delimiter);
    CharAbsent("B", Delimiter);
    CharAbsent("C", Delimiter);
    assert Join(["A", "B", "C"], Delimiter) == "A: B: C";
    SplitOfJoin(["A", "B", "C"], Delimiter);
  }

  /** An empty id is a trailing empty piece, so one piece is left: dropped. */
  lemma ParseEmptyId()
    ensures Parse("CREATE: ") == None
  {
    DelimiterIsBorderFree();
    CharAbsent("CREATE", Delimiter);
    CharAbsent("", Delimiter);
    assert Join(["CREATE", ""], Delimiter) == "CREATE: ";
    PiecesOfJoin(["CREATE", ""], Delimiter);
    FirstOccurrence("CREATE", "", Delimiter);
    assert "CREATE: " == "CREATE" + Delimiter + "";
    DropBlanks(["CREATE"], 1);
    assert ["CREATE"] + Blanks(1) == ["CREATE", ""];
  }

  /** Only the delimiter: `split` gives no pieces at all: dropped. */
  lemma ParseOnlyDelimiter()
    ensures Parse(": ") == None
  {
    SplitEmptyIff(": ", Delimiter);
    assert ": " == Repeat(Delimiter, 1);
  }

  class AuditConsumer {
    /** The `audit_logs` table, in insertion order. */
    var entries: seq<AuditLog>
    /** The next value of the table's identity column. */
    var nextId: int

    /** The rows carry the generated ids 1, 2, ... in insertion order, so no two share an id. */
    ghost predicate Valid()
      reads this
    {
      && nextId == |entries| + 1
      && forall i :: 0 <= i < |entries| ==> entries[i].id == i + 1 && entries[i].entityName == EntityName
    }

    constructor ()
      ensures Valid() && entries == [] && nextId == 1
    {
      entries, nextId := [], 1;
    }

    /**
     * Handles one message, at the consumer's clock reading `now` (the text of
     * `LocalDateTime.now()`). Total: a malformed message is dropped, never
     * thrown.
     */
    method Consume(message: string, now: string)
      requires Valid()
      modifies this
      ensures Valid()
      ensures match Parse(message)
        case None => entries == old(entries) && nextId == old(nextId)
        case Some((eventType, entityId)) =>
          && entries == old(entries) + [AuditLog(old(nextId), eventType, EntityName, entityId, now)]
          && nextId == old(nextId) + 1
    {
      match Parse(message)
      case None =>
      case Some((eventType, entityId)) =>
        var log := AuditLog(nextId, eventType, EntityName, entityId, now);
        entries := entries + [log];
        nextId := nextId + 1;
    }
  }
}
