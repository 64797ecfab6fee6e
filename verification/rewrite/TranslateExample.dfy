// A set of rules that is independent and fits: two top-level attributes move into a settings block that
// does not exist yet, and an attribute of a nested block is renamed.
module TranslateExample {
  import opened Wrappers
  import opened Identifier
  import opened Tree
  import opened Translate
  import opened TranslateAll
  import Tables

  const TTL := Rule([], "ttl", Into("default_ttl"))
  const PORT := Rule(["backend"], "port", To("tcp_port"))
  const HOST := Rule([], "host", Into("default_host"))

  function Backend(): Block {
    Block("backend", [], Body(map["port" := "80"], []))
  }

  function Service(): Body {
    Body(map["ttl" := "60", "host" := "var.host"], [Backend()])
  }

  function RulesTable(): Table {
    map[([], "ttl") := Into("default_ttl"), (["backend"], "port") := To("tcp_port"), ([], "host") := Into("default_host")]
  }

  lemma TableOfRules()
    ensures Extended(map[], [TTL, PORT, HOST]) == RulesTable()
  {
    assert [TTL, PORT, HOST][1..] == [PORT, HOST] && [PORT, HOST][1..] == [HOST] && [HOST][1..] == [];
    var zero: Table := map[];
    var one: Table := map[([], "ttl") := Into("default_ttl")];
    var two := one[(["backend"], "port") := To("tcp_port")];
    assert zero[KeyOf(TTL) := TTL.action] == one;
    assert Extended(zero, [TTL, PORT, HOST]) == Extended(one, [PORT, HOST]);
    assert Extended(one, [PORT, HOST]) == Extended(two, [HOST]);
    assert two[KeyOf(HOST) := HOST.action] == RulesTable();
    assert Extended(two, [HOST]) == Extended(RulesTable(), []) == RulesTable();
  }

  lemma TableIndependent()
    ensures Independent(RulesTable())
  {
    assert |"ttl"| != |"host"| && |"default_ttl"| != |"default_host"| && |"tcp_port"| != |"port"|;
    assert ["backend"][0] != SETTINGS;
  }

  lemma PortFits()
    ensures Fits(PORT, Service())
  {
    assert ["backend"][1..] == [] && [Backend()][1..] == [];
    assert MatchingIn([Backend()], ["backend"]) == Matching(Backend().body, []) + MatchingIn([], ["backend"]);
    assert Matching(Service(), ["backend"]) == [Backend().body];
    assert ValidIdentifier("tcp_port") && |"tcp_port"| != |"port"|;
  }

  lemma MovesFit()
    ensures Fits(TTL, Service()) && Fits(HOST, Service())
  {
    assert First([Backend()], SETTINGS) == 1 && Count([Backend()], SETTINGS) == 0;
    assert ValidIdentifier("default_ttl") && ValidIdentifier("default_host");
  }

  // In any order, and however often each is repeated, the three edits go through.
  lemma AnyOrderGoesThrough(rules: seq<Rule>)
    requires forall r :: r in rules <==> r in [TTL, PORT, HOST]
    ensures RunChanges(Service(), ToChanges(rules)) == Some(Translated(RulesTable(), Service()))
  {
    var listed := [TTL, PORT, HOST];
    TableOfRules();
    TableIndependent();
    PortFits();
    MovesFit();
    assert Agreeing(listed) by {
      hide Extended, Independent, Fits;
      assert forall r | r in listed :: KeyOf(r) in RulesTable() && RulesTable()[KeyOf(r)] == r.action;
    }
    assert AllFit(rules, Service());
    hide RulesTable, Translated, Fits, Independent, Extended;
    Tables.SameTable(listed, rules, KeyOf, ActionOf);
    RulesTranslate(rules, Service());
  }
}
