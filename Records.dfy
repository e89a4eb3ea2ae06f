/** The record every script emits: `make_json_object` / `make_person`. */
module Records {
  import opened Py

  /** A schema.org `Person` with the three fields the scripts fill in. */
  datatype Person = Person(context: string, kind: string, name: string, address: string, jobTitle: string)

  /** `make_json_object(name, job, address)` */
  function MakePerson(name: string, job: string, address: string): Person {
    Person("https://schema.org", "Person", name, address, job)
  }

  /** The record a line produces, as a list of at most one. */
  function Emitted<T>(r: Option<T>): seq<T> {
    if r.Some? then [r.value] else []
  }

  /** Every record is a schema.org Person. */
  predicate SchemaPerson(p: Person) {
    p.context == "https://schema.org" && p.kind == "Person"
  }

  /** The records that `record` gives for the lines, in line order. */
  function Collected<T>(record: string -> Option<T>, lines: seq<string>): seq<T>
    decreases |lines|
  {
    if lines == [] then []
    else Collected(record, lines[..|lines| - 1]) + Emitted(record(lines[|lines| - 1]))
  }

  /** A line appended at the end adds its record, if any, at the end. */
  lemma {:induction false} CollectedSnoc<T>(record: string -> Option<T>, lines: seq<string>, line: string)
    ensures Collected(record, lines + [line]) == Collected(record, lines) + Emitted(record(line))
  {
    assert (lines + [line])[..|lines|] == lines;
  }

  /** One more line adds its record, if any. */
  lemma {:induction false} CollectedPrefix<T>(record: string -> Option<T>, lines: seq<string>, l: nat)
    requires l < |lines|
    ensures Collected(record, lines[..l + 1]) == Collected(record, lines[..l]) + Emitted(record(lines[l]))
  {
    assert lines[..l + 1][..l] == lines[..l];
  }

  /** At most one record per line, and every record is the record of one
      of the lines. */
  lemma {:induction false} CollectedLaws<T>(record: string -> Option<T>, lines: seq<string>)
    ensures |Collected(record, lines)| <= |lines|
    ensures forall k :: 0 <= k < |Collected(record, lines)| ==>
              exists i :: 0 <= i < |lines| && record(lines[i]) == Some(Collected(record, lines)[k])
    decreases |lines|
  {
    if lines != [] {
      var init := lines[..|lines| - 1];
      CollectedLaws(record, init);
      var people := Collected(record, lines);
      forall k | 0 <= k < |people|
        ensures exists i :: 0 <= i < |lines| && record(lines[i]) == Some(people[k])
      {
        if k < |Collected(record, init)| {
          var i :| 0 <= i < |init| && record(init[i]) == Some(Collected(record, init)[k]);
          assert lines[i] == init[i];
        } else {
          assert record(lines[|lines| - 1]) == Some(people[k]);
        }
      }
    }
  }

  /** A line contributes to the collection exactly when its record is
      present, here decided by any predicate `present` that agrees with
      that on every line. */
  lemma {:induction false} CollectedCount<T>(record: string -> Option<T>, present: string -> bool, lines: seq<string>)
    requires forall i :: 0 <= i < |lines| ==> present(lines[i]) == record(lines[i]).Some?
    ensures |Collected(record, lines)| == |Filter(present, lines)|
    decreases |lines|
  {
    if lines != [] {
      var init := lines[..|lines| - 1];
      assert forall i :: 0 <= i < |init| ==> init[i] == lines[i];
      CollectedCount(record, present, init);
      assert lines == init + [lines[|lines| - 1]];
      FilterSnoc(present, init, lines[|lines| - 1]);
    }
  }
}
