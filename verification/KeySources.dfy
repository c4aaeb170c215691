/** Binding mirror keys to source URLs at every start.

    The persisted rows bind keys to URLs. At each start the configured keys are checked
    against them, and the keys that fail are suppressed; the others run, which binds them.
    The single check is a method with an exact contract; what it is for, one key for each
    URL and no binding that moves, is an invariant over any number of starts. */
module KeySources {
  import opened Options

  /** The URL normalisation of `canonicalizeURL`; the model only needs that it is a function. */
  type Canon = string -> string

  datatype Verdict = AddressChanged(prior: string) | DuplicateInConfig | BoundToOther(key: string)

  /** One canonical URL is bound to at most one key. */
  predicate OneKeyPerUrl(canon: Canon, rows: map<string, string>) {
    forall a, b :: a in rows && b in rows && canon(rows[a]) == canon(rows[b]) ==> a == b
  }

  predicate SharedInConfig(canon: Canon, config: map<string, string>, name: string)
    requires name in config
  {
    exists other :: other in config && other != name && canon(config[other]) == canon(config[name])
  }

  predicate BoundElsewhere(canon: Canon, rows: map<string, string>, url: string) {
    exists other :: other in rows && canon(rows[other]) == url
  }

  /** The names that may not start: a bound key whose URL changed, or a new key whose URL is not its own. */
  predicate Suppressed(canon: Canon, rows: map<string, string>, config: map<string, string>, name: string)
    requires name in config
  {
    if name in rows then canon(rows[name]) != canon(config[name])
    else SharedInConfig(canon, config, name) || BoundElsewhere(canon, rows, canon(config[name]))
  }

  ghost predicate IsIndex(canon: Canon, rows: map<string, string>, index: map<string, set<string>>) {
    && (forall u :: u in index ==> index[u] != {} && index[u] == set k | k in rows && canon(rows[k]) == u)
    && (forall k :: k in rows ==> canon(rows[k]) in index)
  }

  ghost predicate VerdictFits(canon: Canon, rows: map<string, string>, config: map<string, string>, name: string, v: Verdict)
    requires name in config
  {
    match v
    case AddressChanged(prior) => name in rows && prior == canon(rows[name]) && prior != canon(config[name])
    case DuplicateInConfig => name !in rows && SharedInConfig(canon, config, name)
    case BoundToOther(other) => name !in rows && other in rows && other != name && canon(rows[other]) == canon(config[name])
  }

  /** The checks on one configured name. */
  method Judge(canon: Canon, rows: map<string, string>, config: map<string, string>, name: string,
               priorByUrl: map<string, set<string>>, configByUrl: map<string, set<string>>) returns (v: Option<Verdict>)
    requires name in config && IsIndex(canon, rows, priorByUrl) && IsIndex(canon, config, configByUrl)
    ensures v.Some? <==> Suppressed(canon, rows, config, name)
    ensures v.Some? ==> VerdictFits(canon, rows, config, name, v.value)
  {
    var url := canon(config[name]);
    if name in rows {
      return if canon(rows[name]) == url then None else Some(AddressChanged(canon(rows[name])));
    }
    var sharing := configByUrl[url];
    SharingMeansShared(canon, config, name, sharing);
    if |sharing| > 1 {
      return Some(DuplicateInConfig);
    }
    if url in priorByUrl {
      var other :| other in priorByUrl[url];
      return Some(BoundToOther(other));
    }
    return None;
  }

  /** `ReconcileKeySources`: the two index maps, then one pass over the configured names. */
  method Reconcile(canon: Canon, rows: map<string, string>, config: map<string, string>)
    returns (suppressed: set<string>, changed: set<string>, verdicts: map<string, Verdict>)
    ensures forall name :: name in suppressed <==> name in config && Suppressed(canon, rows, config, name)
    ensures verdicts.Keys == suppressed && forall name :: name in verdicts ==> VerdictFits(canon, rows, config, name, verdicts[name])
    ensures forall name :: name in changed <==> name in verdicts && verdicts[name].AddressChanged?
  {
    var priorByUrl := IndexByUrl(canon, rows);
    var configByUrl := IndexByUrl(canon, config);
    suppressed, changed, verdicts := {}, {}, map[];
    var todo := config.Keys;
    while todo != {}
      invariant todo <= config.Keys && verdicts.Keys == suppressed
      invariant forall name :: name in suppressed <==> name in config && name !in todo && Suppressed(canon, rows, config, name)
      invariant forall name :: name in verdicts ==> VerdictFits(canon, rows, config, name, verdicts[name])
      invariant forall name :: name in changed <==> name in verdicts && verdicts[name].AddressChanged?
      decreases todo
    {
      var name :| name in todo;
      todo := todo - {name};
      var v := Judge(canon, rows, config, name, priorByUrl, configByUrl);
      if v.Some? {
        suppressed, verdicts := suppressed + {name}, verdicts[name := v.value];
        if v.value.AddressChanged? {
          changed := changed + {name};
        }
      }
    }
  }

  /** Names grouped by canonical URL. */
  method IndexByUrl(canon: Canon, rows: map<string, string>) returns (index: map<string, set<string>>)
    ensures IsIndex(canon, rows, index)
  {
    index := map[];
    var todo := rows.Keys;
    while todo != {}
      invariant todo <= rows.Keys
      invariant forall u :: u in index ==> index[u] != {} && index[u] == set k | k in rows && k !in todo && canon(rows[k]) == u
      invariant forall k :: k in rows && k !in todo ==> canon(rows[k]) in index
      decreases todo
    {
      var k :| k in todo;
      var u := canon(rows[k]);
      index := index[u := (if u in index then index[u] else {}) + {k}];
      todo := todo - {k};
    }
  }

  lemma SharingMeansShared(canon: Canon, config: map<string, string>, name: string, sharing: set<string>)
    requires name in config && sharing == set k | k in config && canon(config[k]) == canon(config[name])
    ensures |sharing| > 1 <==> SharedInConfig(canon, config, name)
  {
    assert name in sharing;
    var others := sharing - {name};
    assert |sharing| == |others| + 1;
    if SharedInConfig(canon, config, name) {
      var other :| other in config && other != name && canon(config[other]) == canon(config[name]);
      assert other in others;
    } else {
      assert others == {};
    }
  }

  // ---- Across starts ----

  /** After a start: each started key is bound to its configured URL. */
  function Bound(rows: map<string, string>, config: map<string, string>, started: set<string>): map<string, string>
    requires started <= config.Keys
  {
    map k | k in rows.Keys + started :: if k in started then config[k] else rows[k]
  }

  /** The keys that are let start keep one key per URL, and no bound key changes its URL. */
  lemma StartKeepsBindings(canon: Canon, rows: map<string, string>, config: map<string, string>, started: set<string>)
    requires OneKeyPerUrl(canon, rows) && started <= config.Keys
    requires forall name :: name in started ==> !Suppressed(canon, rows, config, name)
    ensures OneKeyPerUrl(canon, Bound(rows, config, started))
    ensures forall k :: k in rows ==> canon(Bound(rows, config, started)[k]) == canon(rows[k])
  {
    var next := Bound(rows, config, started);
    forall k | k in rows ensures canon(next[k]) == canon(rows[k]) {
      assert k in started ==> !Suppressed(canon, rows, config, k);
    }
    forall a, b | a in next && b in next && a != b ensures canon(next[a]) != canon(next[b]) {
      if a !in rows {
        NewKeyIsApart(canon, rows, config, started, a, b);
      } else if b !in rows {
        NewKeyIsApart(canon, rows, config, started, b, a);
      }
    }
  }

  lemma NewKeyIsApart(canon: Canon, rows: map<string, string>, config: map<string, string>, started: set<string>, name: string, other: string)
    requires started <= config.Keys && name in started && name !in rows && other != name && other in Bound(rows, config, started)
    requires !Suppressed(canon, rows, config, name)
    requires other in rows ==> canon(Bound(rows, config, started)[other]) == canon(rows[other])
    ensures canon(Bound(rows, config, started)[other]) != canon(config[name])
  {
  }

  datatype Boot = Boot(config: map<string, string>, started: set<string>, listed: bool)

  /** When the bindings cannot be listed, the check sees none of them. */
  function Visible(rows: map<string, string>, boot: Boot): map<string, string> {
    if boot.listed then rows else map[]
  }

  predicate Respects(canon: Canon, rows: map<string, string>, boot: Boot) {
    boot.started <= boot.config.Keys && forall name :: name in boot.started ==> !Suppressed(canon, Visible(rows, boot), boot.config, name)
  }

  ghost predicate Run(canon: Canon, states: seq<map<string, string>>, boots: seq<Boot>) {
    && |states| == |boots| + 1 && OneKeyPerUrl(canon, states[0])
    && forall i :: 0 <= i < |boots| ==> Respects(canon, states[i], boots[i]) && states[i + 1] == Bound(states[i], boots[i].config, boots[i].started)
  }

  /** No bound key moves, and there is still one key per URL. */
  predicate Keeps(canon: Canon, rows: map<string, string>, next: map<string, string>) {
    OneKeyPerUrl(canon, next) && forall k :: k in rows ==> k in next && canon(next[k]) == canon(rows[k])
  }

  /** The bindings that exist, seen or not, speak against none of the keys that were let start. */
  predicate NoneSuppressed(canon: Canon, rows: map<string, string>, boot: Boot)
    requires boot.started <= boot.config.Keys
  {
    forall name :: name in boot.started ==> !Suppressed(canon, rows, boot.config, name)
  }

  /** Whether or not the bindings could be listed, a start keeps them if and only if the check against
      all of them would have passed every key that was started; with the list, it did. */
  lemma StartKeepsBindingsExactly(canon: Canon, rows: map<string, string>, boot: Boot)
    requires OneKeyPerUrl(canon, rows) && Respects(canon, rows, boot)
    ensures Keeps(canon, rows, Bound(rows, boot.config, boot.started)) <==> NoneSuppressed(canon, rows, boot)
    ensures boot.listed ==> NoneSuppressed(canon, rows, boot)
  {
    var next := Bound(rows, boot.config, boot.started);
    if NoneSuppressed(canon, rows, boot) {
      StartKeepsBindings(canon, rows, boot.config, boot.started);
    } else {
      var name :| name in boot.started && Suppressed(canon, rows, boot.config, name);
      if name !in rows {
        var other :| other in rows && canon(rows[other]) == canon(boot.config[name]);
        assert canon(next[other]) == canon(rows[other]) ==> canon(next[other]) == canon(next[name]);
      }
    }
  }

  /** Over any number of starts, the bindings stay one key per URL and never move if no start let a
      key run that they speak against; so they do if they could be listed every time. */
  lemma {:induction false} BindingsSurviveBoots(canon: Canon, states: seq<map<string, string>>, boots: seq<Boot>, i: nat, j: nat)
    requires Run(canon, states, boots) && i <= j < |states|
    requires forall b :: 0 <= b < j ==> boots[b].listed || NoneSuppressed(canon, states[b], boots[b])
    ensures Keeps(canon, states[i], states[j])
    decreases j
  {
    if j > 0 {
      BindingsSurviveBoots(canon, states, boots, if i < j then i else j - 1, j - 1);
      StartKeepsBindingsExactly(canon, states[j - 1], boots[j - 1]);
      assert Keeps(canon, states[j - 1], states[j]);
    }
  }

  /** Start `b` of a run kept the bindings it found. */
  ghost predicate KeptAt(canon: Canon, states: seq<map<string, string>>, boots: seq<Boot>, b: nat)
    requires Run(canon, states, boots) && b < |boots|
  {
    Keeps(canon, states[b], Bound(states[b], boots[b].config, boots[b].started))
  }

  /** And only then: the first start that runs such a key moves a binding or binds one URL twice. */
  lemma {:induction false} EveryStartCounts(canon: Canon, states: seq<map<string, string>>, boots: seq<Boot>, n: nat)
    requires Run(canon, states, boots) && n <= |boots|
    ensures (forall b :: 0 <= b < n ==> KeptAt(canon, states, boots, b))
      <==> forall b :: 0 <= b < n ==> NoneSuppressed(canon, states[b], boots[b])
    decreases n
  {
    if n > 0 {
      var m := n - 1;
      EveryStartCounts(canon, states, boots, m);
      if forall b :: 0 <= b < m ==> NoneSuppressed(canon, states[b], boots[b]) {
        BindingsSurviveBoots(canon, states, boots, m, m);
        StartKeepsBindingsExactly(canon, states[m], boots[m]);
        assert KeptAt(canon, states, boots, m) <==> NoneSuppressed(canon, states[m], boots[m]);
      }
    }
  }

  /** A start without the list can move a binding and bind one URL twice. */
  lemma UnlistedBootBreaksBindings(canon: Canon, u: string, v: string) returns (states: seq<map<string, string>>, boots: seq<Boot>)
    requires canon(u) != canon(v)
    ensures Run(canon, states, boots) && |boots| == 1 && !boots[0].listed
    ensures !OneKeyPerUrl(canon, states[1]) && exists k :: k in states[0] && canon(states[1][k]) != canon(states[0][k])
  {
    var rows := map["a" := u, "b" := v];
    var boot := Boot(map["a" := v], {"a"}, false);
    var next := Bound(rows, boot.config, boot.started);
    states, boots := [rows, next], [boot];
    assert "a" in rows && "b" in rows && next["a"] == v && next["b"] == v;
  }
}
