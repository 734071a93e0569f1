/** What a normalized Kubernetes Event carries, and the part of it that says whether
    two of its states differ in anything but having happened again.
    Models eventBumpFields and eventCoalesceHash of internal/pipeline/coalesce.go. */
module Events {

  datatype Json =
    | Null
    | Bool(b: bool)
    | Num(n: int)
    | Str(s: string)
    | Arr(elems: seq<Json>)
    | Obj(fields: map<string, Json>)

  /** The top-level map normalizeObject produced. */
  type Event = map<string, Json>

  /** The JSON encoding and its SHA-256 are represented by the projected map itself:
      sorted-key encoding is a function of the map, and the digest is taken as injective. */
  type Digest = map<string, Json>

  const BUMP_FIELDS: set<string> :=
    {"count", "lastTimestamp", "eventTime", "series", "deprecatedCount", "deprecatedLastTimestamp"}

  function Projection(event: Event): (digest: Digest) {
    map field | field in event && field !in BUMP_FIELDS :: event[field]
  }

  /** What having happened again rewrites. */
  predicate IsBumpField(field: string) {
    || field == "count" || field == "lastTimestamp" || field == "eventTime" || field == "series"
    || field == "deprecatedCount" || field == "deprecatedLastTimestamp"
  }

  /** The two states agree on every field except, possibly, the six a bump rewrites. */
  ghost predicate SameButBumps(a: Event, b: Event) {
    forall field: string | !IsBumpField(field) ::
      && (field in a <==> field in b)
      && (field in a ==> a[field] == b[field])
  }

  /** The projection is built field by field, in whatever order the map is walked. */
  method EventCoalesceHash(normalized: Event) returns (digest: Digest)
    ensures digest == Projection(normalized)
  {
    digest := map[];
    var todo := normalized.Keys;
    while todo != {}
      invariant todo <= normalized.Keys
      invariant digest == map field | field in normalized.Keys - todo && field !in BUMP_FIELDS :: normalized[field]
      decreases todo
    {
      var field :| field in todo;
      if field !in BUMP_FIELDS {
        digest := digest[field := normalized[field]];
      }
      todo := todo - {field};
    }
  }

  /** Two states digest alike exactly when the bump fields are their only difference. */
  lemma DigestIgnoresExactlyTheBumps(a: Event, b: Event)
    ensures Projection(a) == Projection(b) <==> SameButBumps(a, b)
  {
    var p, q := Projection(a), Projection(b);
    if p == q {
      forall field: string | !IsBumpField(field)
        ensures (field in a <==> field in b) && (field in a ==> a[field] == b[field])
      {
        assert field in a <==> field in p;
        assert field in b <==> field in q;
        assert field in a ==> p[field] == a[field] && q[field] == b[field];
      }
    }
    if SameButBumps(a, b) {
      assert forall field :: field in p <==> field in q;
      assert p == q;
    }
  }
}
