/**
  OpenRouter provisioning: `provision_with_listed` swaps the set of free models it owns inside a
  configuration that is otherwise the person's.
*/
module Provisioning {
  import opened Bytes

  /** `openrouter` */
  const ACCOUNT_ID: Str := [111, 112, 101, 110, 114, 111, 117, 116, 101, 114]
  /** `openrouter-free` */
  const FREE_ORIGIN: Str := [111, 112, 101, 110, 114, 111, 117, 116, 101, 114, 45, 102, 114, 101, 101]
  /** `free` */
  const FREE: Str := [102, 114, 101, 101]

  const SLASH: byte := 47
  const COLON: byte := 58
  const AT: byte := 64
  const TILDE: byte := 126
  const DEFAULT_WINDOW: nat := 128000
  const MAX_RANK: nat := 0xFFFF_FFFF

  /** `ModelProfileConfig`. The fields provisioning neither reads nor refreshes are one value, `rest`;
      it is empty on an entry provisioning writes. */
  datatype Profile = Profile(
    account: Str, model: Str, displayName: Option<Str>, contextWindow: nat,
    origin: Option<Str>, rank: Option<nat>, rest: Str)

  /** `ProviderAccountConfig`, likewise. */
  datatype Account = Account(apiKey: Option<Str>, rest: Str)

  /** The part of the configuration that model selection looks at. `providers` are the legacy ids. */
  datatype Config = Config(
    accounts: map<Str, Account>, models: map<Str, Profile>, providers: set<Str>,
    defaultProvider: Str, defaultModel: Option<Str>)

  datatype FreeModel = FreeModel(id: Str, name: Option<Str>, contextLength: nat)

  /** The environment: OpenRouter's own variable, and how a written key is read (`$VAR`, a variable's name). */
  datatype Env = Env(key: Option<Str>, read: Str -> Str)

  /** What one run is given. */
  datatype Input = Input(env: Env, apiKey: Str, models: seq<FreeModel>, listed: set<Str>)

  /** `Provisioned`. The source lists `removed` and `retired` in the map's own order, so here they are sets. */
  datatype Report = Report(
    added: seq<Str>, removed: set<Str>, retired: set<Str>,
    defaultModel: Option<Str>, defaultReplaced: Option<Str>)

  // ----- names

  /** The selection id of a model: `openrouter/<id>`. */
  function Selection(id: Str): Str {
    ACCOUNT_ID + [SLASH] + id
  }

  lemma SelectionInjective(a: Str, b: Str)
    requires Selection(a) == Selection(b)
    ensures a == b
  {
    assert Selection(a)[|ACCOUNT_ID| + 1..] == a;
    assert Selection(b)[|ACCOUNT_ID| + 1..] == b;
  }

  function Wanted(models: seq<FreeModel>): set<Str> {
    set i | 0 <= i < |models| :: Selection(models[i].id)
  }

  function LowerByte(b: byte): byte {
    if 65 <= b <= 90 then b + 32 else b
  }

  function Lower(s: Str): Str {
    seq(|s|, i requires 0 <= i < |s| => LowerByte(s[i]))
  }

  function LowerAll(listed: set<Str>): set<Str> {
    set id | id in listed :: Lower(id)
  }

  /** Only ids shaped like the list's own are judged: `vendor/model`, with no `@` or `~` in front. */
  predicate Judged(model: Str) {
    && !(|model| > 0 && (model[0] == AT || model[0] == TILDE))
    && Find(model, SLASH).Some? && 0 < Find(model, SLASH).value < |model| - 1
  }

  /** The same byte, or one letter in its two cases. */
  predicate OneLetter(x: byte, y: byte) {
    x == y || ('A' as int <= x <= 'Z' as int && y == x + 32) || ('A' as int <= y <= 'Z' as int && x == y + 32)
  }

  /** Two texts are the same case aside exactly when they are so byte by byte. */
  lemma SameButForCase(a: Str, b: Str)
    ensures Lower(a) == Lower(b) <==> |a| == |b| && forall i :: 0 <= i < |a| ==> OneLetter(a[i], b[i])
  {
    if Lower(a) == Lower(b) {
      assert |a| == |Lower(a)| == |Lower(b)| == |b|;
      forall i | 0 <= i < |a|
        ensures OneLetter(a[i], b[i])
      {
        assert Lower(a)[i] == Lower(b)[i];
      }
    }
  }

  lemma JudgedMeans(model: Str)
    ensures Judged(model) <==>
            && !(|model| > 0 && (model[0] == AT || model[0] == TILDE))
            && exists vendor: Str, name: Str :: vendor != [] && name != [] && SLASH !in vendor &&
                model == vendor + [SLASH] + name
  {
    var at := Find(model, SLASH);
    if at.Some? {
      assert model == model[..at.value] + [SLASH] + model[at.value + 1..];
    }
    forall vendor: Str, name: Str | vendor != [] && name != [] && SLASH !in vendor && model == vendor + [SLASH] + name
      ensures at == Some(|vendor|)
    {
      assert model[|vendor|] == SLASH && model[..|vendor|] == vendor;
    }
  }

  /** Is the model on OpenRouter's list, itself or, for a variant other than `:free`, its base? */
  predicate Offered(model: Str, listed: set<Str>) {
    var id := Lower(model);
    || id in LowerAll(listed)
    || (FindLast(id, COLON).Some? &&
        id[FindLast(id, COLON).value + 1..] != FREE && id[..FindLast(id, COLON).value] in LowerAll(listed))
  }

  lemma OfferedMeans(model: Str, listed: set<Str>)
    ensures Offered(model, listed) <==>
            || Lower(model) in LowerAll(listed)
            || exists base: Str, variant: Str ::
                 COLON !in variant && variant != FREE && Lower(model) == base + [COLON] + variant &&
                     base in LowerAll(listed)
  {
    var id := Lower(model);
    var at := FindLast(id, COLON);
    if at.Some? {
      assert id == id[..at.value] + [COLON] + id[at.value + 1..];
    }
    forall base: Str, variant: Str | COLON !in variant && id == base + [COLON] + variant
      ensures at == Some(|base|) && id[..|base|] == base && id[|base| + 1..] == variant
    {
      assert id[|base|] == COLON && id[..|base|] == base && id[|base| + 1..] == variant;
    }
  }

  // ----- one run

  /** Entries provisioning put there itself, and still owns. */
  predicate Managed(m: Profile) {
    m.account == ACCOUNT_ID && m.origin == Some(FREE_ORIGIN)
  }

  predicate SelectionExists(c: Config, id: Str) {
    id in c.providers || id in c.models
  }

  predicate DefaultExists(c: Config) {
    c.defaultModel.Some? ==> SelectionExists(c, c.defaultModel.value)
  }

  function Window(m: FreeModel): nat {
    if m.contextLength > 0 then m.contextLength else DEFAULT_WINDOW
  }

  function Rank(at: nat): Option<nat> {
    Some(if at + 1 <= MAX_RANK then at + 1 else MAX_RANK)
  }

  function NewEntry(m: FreeModel, at: nat): Profile {
    Profile(ACCOUNT_ID, m.id, m.name, Window(m), Some(FREE_ORIGIN), Rank(at), [])
  }

  function Refreshed(p: Profile, m: FreeModel, at: nat): Profile {
    p.(displayName := m.name, contextWindow := Window(m), rank := Rank(at))
  }

  /** An entry no run put there, whose model OpenRouter does not offer any more. */
  predicate Retires(c: Config, input: Input, id: Str) {
    && input.listed != {}
    && id in c.models && c.models[id].account == ACCOUNT_ID && !Managed(c.models[id])
    && id !in Wanted(input.models)
    && Judged(c.models[id].model) && !Offered(c.models[id].model, input.listed)
  }

  function RetiredIds(c: Config, input: Input): set<Str> {
    set id | id in c.models && Retires(c, input, id)
  }

  function RemovedIds(c: Config, input: Input): set<Str> {
    (set id | id in c.models && Managed(c.models[id]) && id !in Wanted(input.models)) + RetiredIds(c, input)
  }

  /** Where `id` is wanted last. */
  function LastAt(models: seq<FreeModel>, id: Str): (at: Option<nat>)
    ensures at.Some? <==> id in Wanted(models)
    ensures at.Some? ==> at.value < |models| && Selection(models[at.value].id) == id
  {
    if models == [] then None
    else if Selection(models[|models| - 1].id) == id then Some(|models| - 1)
    else
      assert forall i :: 0 <= i < |models| - 1 ==> models[i] == models[..|models| - 1][i];
      LastAt(models[..|models| - 1], id)
  }

  /** What stands under `id` after the free models have been offered to `base`: the person's own entry
      as it was, an owned one refreshed, and a new one where nothing answers to the id. */
  function Entry(base: map<Str, Profile>, providers: set<Str>, models: seq<FreeModel>, id: Str): Option<Profile> {
    var at := LastAt(models, id);
    if id in base then
      if at.Some? && Managed(base[id]) then Some(Refreshed(base[id], models[at.value], at.value)) else Some(base[id])
    else if at.Some? && id !in providers then Some(NewEntry(models[at.value], at.value))
    else None
  }

  function Swapped(base: map<Str, Profile>, providers: set<Str>, models: seq<FreeModel>): map<Str, Profile> {
    map id | id in base.Keys + Wanted(models) && Entry(base, providers, models, id).Some? ::
      Entry(base, providers, models, id).value
  }

  /** The ids that are new, in the order they are wanted. */
  function AddedIds(base: map<Str, Profile>, providers: set<Str>, models: seq<FreeModel>): seq<Str> {
    if models == [] then []
    else
      var most, id := models[..|models| - 1], Selection(models[|models| - 1].id);
      AddedIds(base, providers, most) +
      (if id !in base && id !in providers && LastAt(most, id).None? then [id] else [])
  }

  function NonBlank(key: Option<Str>): Option<Str> {
    if key.Some? && Trim(key.value) != [] then key else None
  }

  /** `openrouter_env_key`: an empty variable is no key. */
  function EnvKey(env: Env): Option<Str> {
    NonBlank(env.key)
  }

  /** `saved_key`: the account's own key as it is read, or the environment's. */
  function SavedKey(c: Config, env: Env): Option<Str> {
    var written := if ACCOUNT_ID in c.accounts then NonBlank(c.accounts[ACCOUNT_ID].apiKey) else None;
    NonBlank(if written.Some? then Some(env.read(Trim(written.value))) else EnvKey(env))
  }

  /** The account with the run's key; a key that is already where it comes from is not written out. */
  function WithKey(c: Config, env: Env, apiKey: Str): map<Str, Account> {
    if ACCOUNT_ID in c.accounts then
      if SavedKey(c, env) == Some(apiKey) then c.accounts
      else c.accounts[ACCOUNT_ID := c.accounts[ACCOUNT_ID].(apiKey := Some(apiKey))]
    else
      c.accounts[ACCOUNT_ID := Account(if EnvKey(env) == Some(apiKey) then None else Some(apiKey), [])]
  }

  predicate LegacyDefault(c: Config) {
    Trim(c.defaultProvider) != [] && SelectionExists(c, c.defaultProvider)
  }

  /** The default after a run, given the configuration with its models swapped. */
  function NextDefault(c: Config, removed: set<Str>, first: Str): Option<Str> {
    if c.defaultModel.None? then
      if LegacyDefault(c) then None else Some(first)
    else if c.defaultModel.value in removed then Some(first)
    else c.defaultModel
  }

  /** The configuration after a run. */
  function Provision(c: Config, input: Input): Config {
    var keyed := c.(accounts := WithKey(c, input.env, input.apiKey));
    if input.models == [] then keyed
    else
      var removed := RemovedIds(c, input);
      var swapped := keyed.(models := Swapped(c.models - removed, c.providers, input.models));
      swapped.(defaultModel := NextDefault(swapped, removed, Selection(input.models[0].id)))
  }

  /** What a run reports. */
  function Reported(c: Config, input: Input): Report {
    if input.models == [] then Report([], {}, {}, c.defaultModel, None)
    else
      var removed := RemovedIds(c, input);
      Report(AddedIds(c.models - removed, c.providers, input.models), removed, RetiredIds(c, input),
             Provision(c, input).defaultModel,
             if c.defaultModel.Some? && c.defaultModel.value in removed then c.defaultModel else None)
  }

  // ----- the run as it changes the configuration in place

  class Configuration {
    var accounts: map<Str, Account>
    var models: map<Str, Profile>
    var providers: set<Str>
    var defaultProvider: Str
    var defaultModel: Option<Str>

    ghost function Value(): Config
      reads this
    {
      Config(accounts, models, providers, defaultProvider, defaultModel)
    }

    /** `provision_with_listed`. */
    method ProvisionWithListed(input: Input) returns (report: Report)
      modifies this
      ensures Value() == Provision(old(Value()), input)
      ensures report == Reported(old(Value()), input)
    {
      hide Swapped, Entry, AddedIds, WithKey, NewEntry, Refreshed, Judged, Offered, Trim;
      ghost var before := Value();
      SetKey(input.env, input.apiKey);
      if input.models == [] {
        return Report([], {}, {}, defaultModel, None);
      }
      var wanted := Wanted(input.models);
      var retired := set id | id in models && input.listed != {} && models[id].account == ACCOUNT_ID
                                 && !Managed(models[id]) && id !in wanted
                                 && Judged(models[id].model) && !Offered(models[id].model, input.listed);
      assert retired == RetiredIds(before, input);
      var removed := (set id | id in models && Managed(models[id]) && id !in wanted) + retired;
      assert removed == RemovedIds(before, input);
      RemoveAll(removed);
      ghost var base := models;
      SwappedNothing(base, providers);
      var added: seq<Str> := [];
      for at := 0 to |input.models|
        invariant models == Swapped(base, providers, input.models[..at])
        invariant added == AddedIds(base, providers, input.models[..at])
        invariant Value() == before.(accounts := WithKey(before, input.env, input.apiKey), models := models)
      {
        var model := input.models[at];
        var selection := Selection(model.id);
        SwappedStep(base, providers, input.models, at);
        AddedStep(base, providers, input.models, at);
        if selection in models {
          if Managed(models[selection]) {
            models := models[selection := Refreshed(models[selection], model, at)];
          }
        } else if selection !in providers {
          models := models[selection := NewEntry(model, at)];
          added := added + [selection];
        }
      }
      assert input.models[..|input.models|] == input.models;
      var first := Selection(input.models[0].id);
      var replaced: Option<Str> := None;
      var legacy := Trim(defaultProvider) != [] && (defaultProvider in providers || defaultProvider in models);
      if defaultModel.None? {
        if !legacy {
          defaultModel := Some(first);
        }
      } else if defaultModel.value in removed {
        replaced := defaultModel;
        defaultModel := Some(first);
      }
      report := Report(added, removed, retired, defaultModel, replaced);
    }

    method SetKey(env: Env, apiKey: Str)
      modifies this`accounts
      ensures accounts == WithKey(old(Value()), env, apiKey)
    {
      if ACCOUNT_ID in accounts {
        var written := NonBlank(accounts[ACCOUNT_ID].apiKey);
        var saved := NonBlank(if written.Some? then Some(env.read(Trim(written.value))) else EnvKey(env));
        if saved != Some(apiKey) {
          accounts := accounts[ACCOUNT_ID := accounts[ACCOUNT_ID].(apiKey := Some(apiKey))];
        }
      } else {
        var inEnv := EnvKey(env) == Some(apiKey);
        accounts := accounts[ACCOUNT_ID := Account(if inEnv then None else Some(apiKey), [])];
      }
    }

    method RemoveAll(ids: set<Str>)
      modifies this`models
      ensures models == old(models) - ids
    {
      var left := ids;
      while left != {}
        invariant left <= ids && models == old(models) - (ids - left)
        decreases left
      {
        var id :| id in left;
        left := left - {id};
        models := models - {id};
      }
    }
  }

  lemma SwappedNothing(base: map<Str, Profile>, providers: set<Str>)
    ensures Swapped(base, providers, []) == base && AddedIds(base, providers, []) == []
  {
  }

  /** The map once `models[at]` has been offered to it. */
  function OfferOne(now: map<Str, Profile>, providers: set<Str>, model: FreeModel, at: nat): map<Str, Profile> {
    var id := Selection(model.id);
    if id in now then
      if Managed(now[id]) then now[id := Refreshed(now[id], model, at)] else now
    else if id in providers then now
    else now[id := NewEntry(model, at)]
  }

  /** One more free model, on the map as the ones before it left it. */
  lemma SwappedStep(base: map<Str, Profile>, providers: set<Str>, models: seq<FreeModel>, at: nat)
    requires at < |models|
    ensures Swapped(base, providers, models[..at + 1])
         == OfferOne(Swapped(base, providers, models[..at]), providers, models[at], at)
  {
    hide Swapped, Entry;
    var prev, next := models[..at], models[..at + 1];
    var target := OfferOne(Swapped(base, providers, prev), providers, models[at], at);
    SwappedKeys(base, providers, prev);
    SwappedKeys(base, providers, next);
    forall other
      ensures other in Swapped(base, providers, next) <==> other in target
      ensures other in target ==> Swapped(base, providers, next)[other] == target[other]
    {
      EntryStep(base, providers, models, at, other);
      assert other in Swapped(base, providers, next) <==> Entry(base, providers, next, other).Some?;
      assert other in Swapped(base, providers, prev) <==> Entry(base, providers, prev, other).Some?;
    }
    assert Swapped(base, providers, next) == target;
  }

  lemma AddedStep(base: map<Str, Profile>, providers: set<Str>, models: seq<FreeModel>, at: nat)
    requires at < |models|
    ensures var id := Selection(models[at].id);
            AddedIds(base, providers, models[..at + 1]) == AddedIds(base, providers, models[..at]) +
              if id !in Swapped(base, providers, models[..at]) && id !in providers then [id] else []
  {
    hide Swapped, Entry;
    var prev := models[..at];
    assert models[..at + 1][..at] == prev;
    SwappedKeys(base, providers, prev);
    NotYet(base, providers, prev, Selection(models[at].id));
  }

  lemma NotYet(base: map<Str, Profile>, providers: set<Str>, models: seq<FreeModel>, id: Str)
    ensures id !in providers ==> (Entry(base, providers, models, id).None? <==> id !in base && LastAt(models, id).None?)
  {
  }

  /** An id is in the swapped map exactly when it has an entry. */
  lemma SwappedKeys(base: map<Str, Profile>, providers: set<Str>, models: seq<FreeModel>)
    ensures forall id :: id in Swapped(base, providers, models) <==> Entry(base, providers, models, id).Some?
    ensures forall id :: id in Swapped(base, providers, models) ==>
              Swapped(base, providers, models)[id] == Entry(base, providers, models, id).value
  {
  }

  /** The entry of `other` once `models[at]` has been offered, in terms of the one before. */
  function EntryAfter(base: map<Str, Profile>, providers: set<Str>, models: seq<FreeModel>, at: nat,
                      other: Str): Option<Profile>
    requires at < |models|
  {
    var now := Entry(base, providers, models[..at], other);
    if other != Selection(models[at].id) then now
    else if now.Some? then
      if Managed(now.value) then Some(Refreshed(now.value, models[at], at)) else now
    else if other in providers then None
    else Some(NewEntry(models[at], at))
  }

  lemma EntryStep(base: map<Str, Profile>, providers: set<Str>, models: seq<FreeModel>, at: nat, other: Str)
    requires at < |models|
    ensures Entry(base, providers, models[..at + 1], other) == EntryAfter(base, providers, models, at, other)
  {
    var prev, next := models[..at], models[..at + 1];
    assert next[..at] == prev && next[at] == models[at];
    if other == Selection(models[at].id) {
      assert LastAt(next, other) == Some(at);
      if LastAt(prev, other).Some? {
        SelectionInjective(prev[LastAt(prev, other).value].id, models[at].id);
      }
    } else {
      assert LastAt(next, other) == LastAt(prev, other);
    }
  }

  lemma WantedStep(models: seq<FreeModel>, at: nat)
    requires at < |models|
    ensures Wanted(models[..at + 1]) == Wanted(models[..at]) + {Selection(models[at].id)}
  {
    var prev, next := models[..at], models[..at + 1];
    assert forall i :: 0 <= i < at ==> next[i] == prev[i];
    forall id | id in Wanted(next)
      ensures id in Wanted(prev) + {Selection(models[at].id)}
    {
      var i :| 0 <= i < |next| && Selection(next[i].id) == id;
      assert i < at ==> Selection(prev[i].id) == id;
    }
    forall id | id in Wanted(prev)
      ensures id in Wanted(next)
    {
      var i :| 0 <= i < |prev| && Selection(prev[i].id) == id;
      assert Selection(next[i].id) == id;
    }
    assert Selection(next[at].id) in Wanted(next);
  }

  // ----- what a run promises

  /** What is under `id` after a run with models. */
  lemma AfterRun(c: Config, input: Input, id: Str)
    requires input.models != []
    ensures var base := c.models - RemovedIds(c, input);
            && (id in Provision(c, input).models <==> Entry(base, c.providers, input.models, id).Some?)
            && (id in Provision(c, input).models ==>
                  Provision(c, input).models[id] == Entry(base, c.providers, input.models, id).value)
  {
    hide Swapped, Entry;
    SwappedKeys(c.models - RemovedIds(c, input), c.providers, input.models);
  }

  /** Ownership: a run never alters an entry it does not own. It takes one out exactly when it has models and
      a list to go by, and the entry is on the account, is not wanted, and names a model of the list's own
      shape that OpenRouter does not offer. */
  lemma UnmarkedIsKeptOrRetired(c: Config, input: Input, id: Str)
    requires id in c.models && !(c.models[id].account == ACCOUNT_ID && c.models[id].origin == Some(FREE_ORIGIN))
    ensures id in Provision(c, input).models ==> Provision(c, input).models[id] == c.models[id]
    ensures id !in Provision(c, input).models <==> input.models != [] && Retires(c, input, id)
    ensures Retires(c, input, id) <==>
            && input.listed != {} && c.models[id].account == ACCOUNT_ID
            && (forall i :: 0 <= i < |input.models| ==> id != ACCOUNT_ID + [SLASH] + input.models[i].id)
            && Judged(c.models[id].model) && !Offered(c.models[id].model, input.listed)
  {
    if input.models != [] {
      AfterRun(c, input, id);
    }
  }

  /** A person's own `openrouter/a/b`, in a run that offers `c/d` with a list that names only that. */
  const OWN: Profile := Profile(ACCOUNT_ID, [97, 47, 98], None, 1, None, None, [])
  const TAKEN_DOWN: Config := Config(map[], map[Selection([97, 47, 98]) := OWN], {}, [], None)

  /** The promise that an unmarked entry is never removed is broken: the run takes it out. */
  lemma UnmarkedIsRemoved(env: Env, apiKey: Str)
    ensures var input := Input(env, apiKey, [FreeModel([99, 47, 100], None, 0)], {[99, 47, 100]});
            var id := Selection([97, 47, 98]);
            && id in TAKEN_DOWN.models && TAKEN_DOWN.models[id].origin == None
            && Retires(TAKEN_DOWN, input, id) && id !in Provision(TAKEN_DOWN, input).models
  {
    var input := Input(env, apiKey, [FreeModel([99, 47, 100], None, 0)], {[99, 47, 100]});
    var own, offered: Str := [97, 47, 98], [99, 47, 100];
    var id := Selection(own);
    assert Find(own, SLASH) == Some(1) by {
      assert own[..1] == [97] && own[1] == SLASH;
    }
    assert offered[0] == 99 && Lower(own)[0] == 97 && Lower(offered)[0] == 99;
    assert FindLast(Lower(own), COLON) == None;
    assert Selection(offered)[|ACCOUNT_ID| + 1] == 99 && id[|ACCOUNT_ID| + 1] == 97;
    assert input.listed != {} by { assert offered in input.listed; }
    assert Retires(TAKEN_DOWN, input, id);
    UnmarkedIsKeptOrRetired(TAKEN_DOWN, input, id);
  }

  /** The configuration after a sequence of runs. */
  function ProvisionAll(c: Config, inputs: seq<Input>): Config
    decreases |inputs|
  {
    if inputs == [] then c else Provision(ProvisionAll(c, inputs[..|inputs| - 1]), inputs[|inputs| - 1])
  }

  ghost predicate Holds(c: Config, id: Str, entry: Profile) {
    id in c.models && c.models[id] == entry
  }

  /** Through any number of runs an entry that is not owned stays exactly as it was, up to a run, if there is
      one, that retires it. */
  lemma {:induction false} UnmarkedThroughRuns(c: Config, inputs: seq<Input>, id: Str) returns (kept: nat)
    requires id in c.models && !Managed(c.models[id])
    ensures kept <= |inputs|
    ensures forall k :: 0 <= k <= kept ==> Holds(ProvisionAll(c, inputs[..k]), id, c.models[id])
    ensures kept < |inputs| ==>
              && inputs[kept].models != []
              && Retires(ProvisionAll(c, inputs[..kept]), inputs[kept], id)
              && id !in ProvisionAll(c, inputs[..kept + 1]).models
    decreases |inputs|
  {
    hide Provision, Retires;
    if inputs == [] {
      kept := 0;
      assert inputs[..0] == [];
    } else {
      var n := |inputs| - 1;
      var most := inputs[..n];
      kept := UnmarkedThroughRuns(c, most, id);
      assert forall k :: 0 <= k <= n ==> most[..k] == inputs[..k];
      assert inputs[..n + 1] == inputs && inputs[..n + 1][..n] == most;
      if kept == n {
        assert Holds(ProvisionAll(c, inputs[..n]), id, c.models[id]);
        UnmarkedIsKeptOrRetired(ProvisionAll(c, most), inputs[n], id);
        if id in ProvisionAll(c, inputs).models {
          kept := n + 1;
        }
      }
    }
  }

  /** Every id a run adds is new and wanted, once each. */
  lemma {:induction false} AddedAre(base: map<Str, Profile>, providers: set<Str>, models: seq<FreeModel>)
    ensures forall id :: id in AddedIds(base, providers, models) <==>
        id in Wanted(models) && id !in base && id !in providers
    ensures forall i, j :: 0 <= i < j < |AddedIds(base, providers, models)| ==>
              AddedIds(base, providers, models)[i] != AddedIds(base, providers, models)[j]
    ensures AddedIds(base, providers, models) == []
         || exists id :: id in Wanted(models) && id !in base && id !in providers
  {
    if models != [] {
      var n := |models| - 1;
      AddedAre(base, providers, models[..n]);
      WantedStep(models, n);
      assert models[..n + 1] == models;
    }
  }

  /** The books balance: the new ids are the old ones without `removed` and with `added`, which are really
      gone and really new. */
  lemma KeysBalance(c: Config, input: Input)
    ensures var report := Reported(c, input);
            && Provision(c, input).models.Keys == c.models.Keys - report.removed + (set id | id in report.added)
            && report.removed <= c.models.Keys
            && (forall id :: id in report.added ==> id !in c.models)
            && report.retired == (set id | id in report.removed && c.models[id].origin != Some(FREE_ORIGIN))
  {
    if input.models != [] {
      var base := c.models - RemovedIds(c, input);
      AddedAre(base, c.providers, input.models);
      forall id
        ensures id in Provision(c, input).models <==> id in base || id in AddedIds(base, c.providers, input.models)
      {
        AfterRun(c, input, id);
      }
    }
  }

  /** `models[at]` is the last that is wanted under `id`. */
  predicate LastWanted(models: seq<FreeModel>, id: Str, at: int) {
    && 0 <= at < |models| && id == ACCOUNT_ID + [SLASH] + models[at].id
    && forall j :: at < j < |models| ==> models[j].id != models[at].id
  }

  lemma {:induction false} LastAtIsLast(models: seq<FreeModel>, id: Str, at: nat)
    requires LastWanted(models, id, at)
    ensures LastAt(models, id) == Some(at)
    decreases |models|
  {
    var n := |models| - 1;
    if at < n {
      if Selection(models[n].id) == id {
        SelectionInjective(models[n].id, models[at].id);
      }
      LastAtIsLast(models[..n], id, at);
    }
  }

  /** An owned entry is the one the last place its id has in the list makes it. */
  lemma OwnedEntry(base: map<Str, Profile>, providers: set<Str>, models: seq<FreeModel>, id: Str, at: nat)
    requires LastWanted(models, id, at)
    requires Entry(base, providers, models, id).Some? && Managed(Entry(base, providers, models, id).value)
    ensures Current(Entry(base, providers, models, id).value, models[at], at)
  {
    LastAtIsLast(models, id, at);
  }

  /** The entry shows `model`'s name and window and the rank of place `at`. */
  predicate Current(entry: Profile, model: FreeModel, at: nat) {
    && entry.rank == Some(if at < 0xFFFF_FFFF then at + 1 else 0xFFFF_FFFF)
    && entry.displayName == model.name
    && entry.contextWindow == if model.contextLength == 0 then 128000 else model.contextLength
  }

  /** After a run with models, what is owned is wanted, ranked by its place, the last where an id comes twice, and shows
      the name and window the list has there. */
  lemma OwnedIsCurrent(c: Config, input: Input, id: Str)
    requires input.models != []
    requires id in Provision(c, input).models
    requires var m := Provision(c, input).models[id]; m.account == ACCOUNT_ID && m.origin == Some(FREE_ORIGIN)
    ensures exists at :: LastWanted(input.models, id, at)
    ensures forall at :: LastWanted(input.models, id, at) ==>
              Current(Provision(c, input).models[id], input.models[at], at)
  {
    AfterRun(c, input, id);
    assert id in Wanted(input.models);
    hide Provision, Entry;
    var last := WantedLast(input.models, id);
    forall at | LastWanted(input.models, id, at)
      ensures Current(Provision(c, input).models[id], input.models[at], at)
    {
      OwnedEntry(c.models - RemovedIds(c, input), c.providers, input.models, id, at);
    }
  }

  lemma {:induction false} WantedLast(models: seq<FreeModel>, id: Str) returns (at: nat)
    requires id in Wanted(models)
    ensures LastWanted(models, id, at)
    decreases |models|
  {
    var n := |models| - 1;
    if Selection(models[n].id) == id {
      at := n;
    } else {
      WantedStep(models, n);
      assert models[..n + 1] == models;
      at := WantedLast(models[..n], id);
    }
  }

  /** What a run adds it owns, under the model's own selection id. */
  lemma AddedIsOwned(c: Config, input: Input, id: Str)
    requires id in Reported(c, input).added
    ensures id in Provision(c, input).models
    ensures var entry := Provision(c, input).models[id];
            && entry.account == ACCOUNT_ID && entry.origin == Some(FREE_ORIGIN) && entry.rest == []
            && id == ACCOUNT_ID + [SLASH] + entry.model
  {
    AfterRun(c, input, id);
    AddedAre(c.models - RemovedIds(c, input), c.providers, input.models);
  }

  /** `added` are these of the wanted ids, in their order. */
  ghost predicate InOrderOf(added: seq<Str>, models: seq<FreeModel>, places: seq<nat>) {
    && |places| == |added|
    && (forall k :: 0 <= k < |places| ==> places[k] < |models| && added[k] == ACCOUNT_ID + [SLASH] + models[places[k]].id)
    && (forall j, k :: 0 <= j < k < |places| ==> places[j] < places[k])
  }

  /** What a run adds is exactly what is wanted and answers to nothing, once each, in the order it is wanted. */
  lemma AddedExactly(c: Config, input: Input)
    requires input.models != []
    ensures var added := Reported(c, input).added;
            && (forall id :: id in added <==> id in Wanted(input.models) && id !in c.models && id !in c.providers)
            && (forall i, j :: 0 <= i < j < |added| ==> added[i] != added[j])
            && (exists places :: InOrderOf(added, input.models, places))
  {
    var base := c.models - RemovedIds(c, input);
    AddedAre(base, c.providers, input.models);
    var places := AddedPlaces(base, c.providers, input.models);
    forall id | id in Wanted(input.models)
      ensures id in base <==> id in c.models
    {
    }
  }

  lemma {:induction false} AddedPlaces(base: map<Str, Profile>, providers: set<Str>, models: seq<FreeModel>)
    returns (places: seq<nat>)
    ensures InOrderOf(AddedIds(base, providers, models), models, places)
  {
    if models == [] {
      places := [];
    } else {
      var n := |models| - 1;
      var most := AddedPlaces(base, providers, models[..n]);
      var before, id := AddedIds(base, providers, models[..n]), Selection(models[n].id);
      assert forall i :: 0 <= i < n ==> models[..n][i] == models[i];
      if id !in base && id !in providers && LastAt(models[..n], id).None? {
        places := most + [n];
      } else {
        places := most;
        assert before + [] == before;
      }
    }
  }

  /** An owned entry that stays keeps all but its name, window and rank: what the person set on it survives. */
  lemma OwnedKeepsTheRest(c: Config, input: Input, id: Str)
    requires input.models != [] && id in c.models && Managed(c.models[id]) && id in Wanted(input.models)
    ensures id in Provision(c, input).models
    ensures var was, now := c.models[id], Provision(c, input).models[id];
            now.(displayName := was.displayName, contextWindow := was.contextWindow, rank := was.rank) == was
  {
    AfterRun(c, input, id);
  }

  /** No account but OpenRouter's is touched, and of that one only the key; nothing of the legacy configuration is; and
      a run without models changes nothing but the key. */
  lemma KeyIsAllThatChanges(c: Config, input: Input)
    ensures var after := Provision(c, input);
            && after.providers == c.providers && after.defaultProvider == c.defaultProvider
            && (input.models == [] ==> after == c.(accounts := after.accounts)
                                       && Reported(c, input) == Report([], {}, {}, c.defaultModel, None))
    ensures var after := Provision(c, input).accounts;
            && after.Keys == c.accounts.Keys + {ACCOUNT_ID}
            && (forall id :: id in c.accounts && id != ACCOUNT_ID ==> after[id] == c.accounts[id])
            && after[ACCOUNT_ID].rest == (if ACCOUNT_ID in c.accounts then c.accounts[ACCOUNT_ID].rest else [])
  {
  }

  /** The key was already where it comes from: on the account as it is read, or, for no account, in the environment. */
  predicate AlreadyThere(c: Config, input: Input) {
    if ACCOUNT_ID in c.accounts then SavedKey(c, input.env) == Some(input.apiKey)
    else EnvKey(input.env) == Some(input.apiKey)
  }

  /** What the saved key is: the account's own, if it is not blank, as it is read; else the environment's; and only if
      what comes of it is not blank. */
  lemma SavedKeyMeans(c: Config, env: Env, key: Str)
    ensures SavedKey(c, env) == Some(key) <==>
            && !AllSpace(key)
            && if ACCOUNT_ID in c.accounts && c.accounts[ACCOUNT_ID].apiKey.Some?
                  && !AllSpace(c.accounts[ACCOUNT_ID].apiKey.value)
               then env.read(Trim(c.accounts[ACCOUNT_ID].apiKey.value)) == key
               else env.key == Some(key)
  {
    hide Trim, AllSpace;
    BlankMeans(key);
    if env.key.Some? {
      BlankMeans(env.key.value);
    }
    if ACCOUNT_ID in c.accounts && c.accounts[ACCOUNT_ID].apiKey.Some? {
      BlankMeans(c.accounts[ACCOUNT_ID].apiKey.value);
    }
  }

  /** After a run the key reads back as the one given exactly when it was already there, or is a text that is
      not blank and that reading leaves as it is: a key that looks like a variable does not read back. */
  lemma KeyReadsBack(c: Config, input: Input)
    ensures SavedKey(Provision(c, input), input.env) == Some(input.apiKey) <==>
            AlreadyThere(c, input) || (Trim(input.apiKey) != [] && input.env.read(Trim(input.apiKey)) == input.apiKey)
  {
  }

  /** Every wanted id answers to something after the run. */
  lemma WantedExists(c: Config, input: Input, id: Str)
    requires input.models != [] && id in Wanted(input.models)
    ensures SelectionExists(Provision(c, input), id)
  {
    AfterRun(c, input, id);
  }

  /** The default names something after a run exactly when it did before, or the run added what it named. */
  lemma DefaultStaysValid(c: Config, input: Input)
    ensures DefaultExists(Provision(c, input)) <==>
            DefaultExists(c) || c.defaultModel.value in Reported(c, input).added
  {
    if input.models != [] {
      var first := Selection(input.models[0].id);
      assert first in Wanted(input.models);
      WantedExists(c, input, first);
      if c.defaultModel.Some? {
        KeysBalance(c, input);
        hide Swapped, Entry, AddedIds;
      }
    }
  }

  /** A default the person chose is left alone: it changes only from none to the first free model, or away
      from a model this run removed; and the old one is reported exactly when it changed. */
  lemma ChosenDefaultIsKept(c: Config, input: Input)
    ensures var d := Provision(c, input).defaultModel;
            d != c.defaultModel ==>
              && input.models != [] && d == Some(Selection(input.models[0].id))
              && (c.defaultModel.None? || c.defaultModel.value in Reported(c, input).removed)
    ensures Reported(c, input).defaultReplaced ==
            if Provision(c, input).defaultModel != c.defaultModel then c.defaultModel else None
    ensures Reported(c, input).defaultModel == Provision(c, input).defaultModel
  {
  }

  /** Whether a run that has models leaves a default, and which. With none before, there is none after exactly when the
      legacy default names something the run leaves; otherwise it is the first of the models. One that named an entry
      the run removed is the first of the models; any other stays. */
  lemma DefaultAfterRun(c: Config, input: Input)
    requires input.models != []
    ensures var after := Provision(c, input); var first := ACCOUNT_ID + [SLASH] + input.models[0].id;
            && (c.defaultModel.None? ==>
                  if !AllSpace(c.defaultProvider)
                     && (c.defaultProvider in c.providers || c.defaultProvider in after.models)
                  then after.defaultModel == None
                  else after.defaultModel == Some(first))
            && (c.defaultModel.Some? ==>
                  if c.defaultModel.value in c.models && c.defaultModel.value !in after.models
                  then after.defaultModel == Some(first)
                  else after.defaultModel == c.defaultModel)
  {
    BlankMeans(c.defaultProvider);
    KeysBalance(c, input);
    hide Swapped, Entry, AddedIds, RemovedIds, RetiredIds, Trim, AllSpace;
  }

  // ----- running twice

  lemma KeyIdempotent(c: Config, env: Env, apiKey: Str)
    ensures WithKey(c.(accounts := WithKey(c, env, apiKey)), env, apiKey) == WithKey(c, env, apiKey)
  {
  }

  /** Nothing is left to remove. */
  lemma RemovedOnce(c: Config, input: Input)
    requires input.models != []
    ensures RemovedIds(Provision(c, input), input) == {}
  {
    var after := Provision(c, input);
    forall id | id in after.models
      ensures !(Managed(after.models[id]) && id !in Wanted(input.models)) && !Retires(after, input, id)
    {
      AfterRun(c, input, id);
    }
  }

  /** Offering the same models again changes nothing. */
  lemma SwappedTwice(base: map<Str, Profile>, providers: set<Str>, models: seq<FreeModel>)
    ensures Swapped(Swapped(base, providers, models), providers, models) == Swapped(base, providers, models)
    ensures AddedIds(Swapped(base, providers, models), providers, models) == []
  {
    var once := Swapped(base, providers, models);
    SwappedKeys(base, providers, models);
    SwappedKeys(once, providers, models);
    AddedAre(once, providers, models);
    hide Swapped, AddedIds;
    forall id
      ensures Entry(once, providers, models, id) == Entry(base, providers, models, id)
    {
      assert id in once <==> Entry(base, providers, models, id).Some?;
    }
    assert Swapped(once, providers, models) == once;
    assert forall id :: id in Wanted(models) && id !in providers ==> Entry(base, providers, models, id).Some?;
  }

  /** A second run with the same input changes nothing, adds nothing, removes nothing and replaces no default. */
  lemma ProvisionIdempotent(c: Config, input: Input)
    ensures var after := Provision(c, input);
            && Provision(after, input) == after
            && Reported(after, input) == Report([], {}, {}, after.defaultModel, None)
  {
    var after := Provision(c, input);
    KeyIdempotent(c, input.env, input.apiKey);
    AccountsAlone(c, after, input);
    if input.models != [] {
      RemovedOnce(c, input);
      assert after.models - {} == after.models;
      SwappedTwice(c.models - RemovedIds(c, input), c.providers, input.models);
    }
  }

  /** Keys depend on the accounts alone. */
  lemma AccountsAlone(c: Config, after: Config, input: Input)
    requires after.accounts == WithKey(c, input.env, input.apiKey)
    ensures WithKey(after, input.env, input.apiKey) == WithKey(c.(accounts := after.accounts), input.env, input.apiKey)
  {
  }
}
