/**
 * Clients of the logger that use nothing but its contracts and the History
 * lemmas: the histories of the package's own examples for a colour being
 * changed (example_test.go:94-117), a user with a hidden password
 * (example_test.go:119-134) and an item being deleted (example_test.go:43-58).
 */
module AuditScenarios {
  import opened Audit
  import opened AuditStorage
  import opened AuditLogger
  import opened History

  /** Create then update one field: nil -> red, then red -> blue. */
  method ColourChange()
  {
    var s := new InMemoryStorage();
    var logger := new Logger(s);
    var red := map["color" := PlainValue(Text("red"))];
    var blue := map["color" := PlainValue(Text("blue"))];
    logger.Create("item:1", "alice", "Item created", red, 1);
    logger.Update("item:1", "bob", "Color changed", blue, 2);

    var changes := logger.Logs("item:1");
    ghost var es := s.EventsOf("item:1");
    assert es == [Event(1, ActionCreate, "alice", "Item created", red),
                  Event(2, ActionUpdate, "bob", "Color changed", blue)];
    assert |changes| == 2;
    assert changes[1].description == "Color changed" && changes[1].author == "bob";

    FirstVisibleFromNil(es, 0, "color");
    VisibleAfterHidden(es, 0, 1, "color");
    assert Diff(StateAfter(es[..0]), red) == map["color" := ChangeField("color", Nil, Text("red"))];
    assert Diff(StateAfter(es[..1]), blue)
        == map["color" := ChangeField("color", Text("red"), Text("blue"))];
    HistoryAt(changes, es, 0);
    HistoryAt(changes, es, 1);
    assert changes[0].fields[0] == ChangeField("color", Nil, Text("red"));
    assert changes[1].fields[0] == ChangeField("color", Text("red"), Text("blue"));
  }

  /** A hidden password shows `*** -> ***`, beside the visible email. */
  method HiddenPassword()
  {
    var s := new InMemoryStorage();
    var logger := new Logger(s);
    var created := map["email" := PlainValue(Text("user@example.com")), "password" := HiddenValue()];
    logger.Create("user:1", "admin", "User created", created, 1);

    var changes := logger.Logs("user:1");
    ghost var es := s.EventsOf("user:1");
    assert es == [Event(1, ActionCreate, "admin", "User created", created)];
    FieldOfChange(es, 0, "password");
    FirstVisibleFromNil(es, 0, "email");
    ghost var d := Diff(StateAfter(es[..0]), created);
    assert d["password"] == ChangeField("password", Mask, Mask);
    assert d["email"] == ChangeField("email", Nil, Text("user@example.com"));
    assert exists i :: 0 <= i < |changes[0].fields| && changes[0].fields[i] == ChangeField("password", Mask, Mask);
    assert exists i :: 0 <= i < |changes[0].fields| && changes[0].fields[i] == ChangeField("email", Nil, Text("user@example.com"));
  }

  /** Create then delete with an empty payload: two events, the last a delete. */
  method CreateThenDelete()
  {
    var s := new InMemoryStorage();
    var logger := new Logger(s);
    logger.Create("item:1", "user", "Item created", map["name" := PlainValue(Text("Widget"))], 1);
    logger.Delete("item:1", "admin", "Item deleted", map[], 2);

    var events := logger.Events("item:1", []);
    assert |events| == 2 && events[1].action == ActionDelete;

    var named := logger.Events("item:1", ["name"]);
    assert (set f | f in ["name"]) == {"name"};
    assert events[..1] + events[1..] == events;
    assert events[..1][..0] == [] && events[1..][..0] == [];
    assert Relevant(events[0], {"name"});
    FilterEventsAppend(events[..1], events[1..], {"name"});
    assert !Relevant(events[1], {"name"});
    assert |named| == 1 && named[0].payload == map["name" := PlainValue(Text("Widget"))];

    var unknown := logger.Events("item:2", []);
    assert unknown == [];
  }
}
