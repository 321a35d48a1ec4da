/** The `PATCH` handler of app/api/profile/route.ts: which request fields reach the profile row. */
module ProfileRoute {
  import opened Wrappers
  import opened Js

  /** The only profile columns a user may change. */
  const AllowedFields: seq<string> := ["full_name", "interface_language", "theme"]

  /** The fields of `body` that are allowed and present (`!== undefined`; `null` counts as present). */
  predicate Copied(body: map<string, Value>, f: string) {
    f in AllowedFields && Get(body, f) != Undefined
  }

  /**
   * The handler. `authenticated` is the outcome of the session lookup, `now`
   * the ISO timestamp, `dbOk` whether the database accepted the update.
   * `write` is the update sent to the database, `None` when nothing is written.
   */
  method Patch(authenticated: bool, body: map<string, Value>, now: string, dbOk: bool)
    returns (status: nat, write: Option<map<string, Value>>)
    ensures !authenticated ==> status == 401 && write.None?
    ensures authenticated && (forall f :: f in AllowedFields ==> !Copied(body, f)) ==> status == 400 && write.None?
    ensures authenticated && (exists f :: f in AllowedFields && Copied(body, f)) ==>
      write.Some? && status == (if dbOk then 200 else 500)
    ensures write.Some? ==> forall k :: k in write.value ==> k in AllowedFields || k == "updated_at"
    ensures write.Some? ==> forall f :: f in AllowedFields ==> (f in write.value <==> Copied(body, f))
    ensures write.Some? ==> forall f :: f in AllowedFields && f in write.value ==> write.value[f] == body[f]
    ensures write.Some? ==> "updated_at" in write.value && write.value["updated_at"] == Str(now)
  {
    if !authenticated {
      return 401, None;
    }
    var updates: map<string, Value> := map[];
    for i := 0 to |AllowedFields|
      invariant forall k :: k in updates ==> k in AllowedFields[..i]
      invariant forall j :: 0 <= j < i ==> (AllowedFields[j] in updates <==> Copied(body, AllowedFields[j]))
      invariant forall k :: k in updates ==> k in body && updates[k] == body[k]
    {
      var field := AllowedFields[i];
      if Get(body, field) != Undefined {
        updates := updates[field := body[field]];
      }
    }
    if updates == map[] {
      assert forall f :: f in AllowedFields ==> !Copied(body, f) by {
        forall f | f in AllowedFields ensures !Copied(body, f) {
          var j :| 0 <= j < |AllowedFields| && AllowedFields[j] == f;
        }
      }
      return 400, None;
    }
    assert forall k :: k in updates ==> k in AllowedFields && k != "updated_at";
    updates := updates["updated_at" := Str(now)];
    write := Some(updates);
    status := if dbOk then 200 else 500;
  }
}
