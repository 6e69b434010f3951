/** The two store scenarios of the package's tests, replayed against the
    model: each builds a fresh store, drives it through the public calls and
    states the replies the scenario expects. The ids are well formed and
    every call happens at the same instant `now`. */
module SessionTest {
  import opened Ram

  /** The two kinds of payload the scenarios store. */
  datatype Value = Int(n: int) | Str(s: string)

  /** `TestDeactivate`: a session is created and given a value, destroyed,
      and created again under the same id; the new session starts with an
      empty value bag. */
  method Deactivate(poorlyFormed: Uuid -> bool, id: Uuid, now: int)
    returns (created: Option<Error>, stored: Option<Error>, destroyed: Option<Error>,
             recreated: Option<Error>, got: Result<int>)
    requires !poorlyFormed(id)
    ensures created == None && stored == None && destroyed == None
    ensures recreated == None && got == Err(ErrNoData)
  {
    var m := new Store<int>.Init(poorlyFormed);
    var sess;
    sess, created := m.Create(id, 0, now);
    stored := sess.Set("num", 123, now);
    destroyed := m.Destroy(id);
    var sess2;
    sess2, recreated := m.Create(id, 0, now);
    got := sess2.Get("num", now);
  }

  /** `TestActivate`: two handles on one session see each other's writes:
      a second Create of a live id is refused, Restore hands out a second
      handle, and Set and Del through the first are read through the second. */
  method Activate(poorlyFormed: Uuid -> bool, id: Uuid, now: int)
    returns (created: Option<Error>, duplicate: Option<Error>, restored: Option<Error>,
             one: Result<Value>, n: Result<Value>, deleted: Option<Error>,
             oneAfterDel: Result<Value>, hello: Result<Value>)
    requires !poorlyFormed(id)
    ensures created == None && duplicate == Some(ErrNoSession) && restored == None
    ensures one == Ok(Int(1)) && n == Ok(Int(123))
    ensures deleted == None && oneAfterDel == Err(ErrNoData)
    ensures hello == Ok(Str("hello"))
  {
    var m := new Store<Value>.Init(poorlyFormed);
    var sess;
    sess, created := m.Create(id, 0, now);
    var e1 := sess.Set("one", Int(1), now);
    var e2 := sess.Set("23", Int(123), now);
    var sess2;
    sess2, duplicate := m.Create(id, 0, now);
    sess2, restored := m.Restore(id, now);
    assert sess.sto == m && sess2.sto == m && sess.id == id && sess2.id == id;
    one := sess2.Get("one", now);
    n := sess2.Get("23", now);
    deleted := sess.Del("one", now);
    oneAfterDel := sess2.Get("one", now);
    var e3 := sess.Set("23", Str("hello"), now);
    hello := sess2.Get("23", now);
  }
}
