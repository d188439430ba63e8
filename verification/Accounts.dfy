/** Logins, scope presets and API tokens: one configuration changed by requests, each inside one lock. */
module Accounts {
  import opened Wrappers
  import Tags

  const MIN_PASSWORD := 8

  datatype Role = Admin | Operator | Viewer

  /** The password stands for its hash. */
  datatype User = User(role: Role, tags: seq<string>, preset: Option<string>, password: string, mustChange: bool,
                       generation: nat)

  datatype Token = Token(id: string, owner: string, name: string)

  datatype Config = Config(users: map<string, User>, presets: map<string, seq<string>>, tokens: map<string, Token>)

  /** Who sent a request, as resolved before the request took the lock. */
  datatype Identity = Identity(name: string, role: Role, viaToken: bool, session: Option<string>)

  /**
    * Text fields are already stripped; a role that is not one of the three is None. A token deletion carries
    * the hash stored first among the tokens with its id.
    */
  datatype Request =
    | AddUser(user: string, role: Option<Role>, password: string, preset: string, tags: seq<string>)
    | UpdateUser(user: string, newRole: Option<Option<Role>>, password: string, revoke: bool,
                 setPreset: Option<string>, setTags: Option<seq<string>>)
    | DeleteUser(user: string)
    | ChangePassword(oldPassword: string, password: string)
    | SavePreset(preset: string, tags: seq<string>)
    | DeletePreset(preset: string)
    | CreateToken(hash: string, id: string, tokenName: string)
    | DeleteToken(id: string, first: string)

  datatype Outcome =
    | Done | Forbidden | BadName | BadRole | BadPassword | NoTags | Exists | Missing | UnknownPreset
    | OwnRole | OwnAccount | LastAdmin | InUse | NotInteractive

  predicate ValidName(s: string) {
    1 <= |s| <= 32 && forall c :: c in s ==> 'A' <= c <= 'Z' || 'a' <= c <= 'z' || '0' <= c <= '9' || c in "._-"
  }

  predicate ValidTokenName(s: string) {
    1 <= |s| <= 48 && forall c :: c in s ==> c as int > 0x1f
  }

  predicate AdminOnly(r: Request) {
    r.AddUser? || r.UpdateUser? || r.DeleteUser? || r.SavePreset? || r.DeletePreset?
  }

  // ---- What each request does ----

  function AddUserTo(c: Config, r: Request): (Config, Outcome)
    requires r.AddUser?
  {
    if !ValidName(r.user) then (c, BadName)
    else if r.role.None? then (c, BadRole)
    else if |r.password| < MIN_PASSWORD then (c, BadPassword)
    else
      var admin := r.role.value.Admin?;
      var preset := if admin then "" else r.preset;
      var tags := if admin || preset != "" then [] else Tags.Clean(r.tags);
      if r.user in c.users then (c, Exists)
      else if preset != "" && preset !in c.presets then (c, UnknownPreset)
      else
        var rec := User(r.role.value, tags, if preset != "" then Some(preset) else None, r.password, true, 0);
        (c.(users := c.users[r.user := rec]), Done)
  }

  /** The scope of an updated record. */
  function Rescoped(rec: User, r: Request): User
    requires r.UpdateUser?
  {
    var preset := if rec.role.Admin? || r.setPreset.None? then "" else r.setPreset.value;
    if r.setPreset.None? && r.setTags.None? then rec
    else if preset != "" then rec.(preset := Some(preset), tags := [])
    else
      rec.(preset := None,
           tags := if rec.role.Admin? || r.setTags.None? then [] else Tags.Clean(r.setTags.value))
  }

  function UpdateUserIn(c: Config, who: Identity, r: Request): (Config, Outcome)
    requires r.UpdateUser?
  {
    if r.user !in c.users then (c, Missing)
    else if r.newRole == Some(None) then (c, BadRole)
    else if r.newRole.Some? && r.user == who.name && r.newRole.value != Some(Admin) then (c, OwnRole)
    else if r.password != "" && |r.password| < MIN_PASSWORD then (c, BadPassword)
    else if r.setPreset.Some? && r.setPreset.value != "" && r.setPreset.value !in c.presets then (c, UnknownPreset)
    else
      var rec := c.users[r.user];
      var rec := if r.newRole.Some? then rec.(role := r.newRole.value.value) else rec;
      var rec :=
        if r.password == "" then rec
        else rec.(password := r.password, mustChange := true, generation := rec.generation + 1);
      var rec := if r.revoke then rec.(generation := rec.generation + 1) else rec;
      (c.(users := c.users[r.user := Rescoped(rec, r)]), Done)
  }

  function Admins(users: map<string, User>): set<string> {
    set u | u in users && users[u].role.Admin?
  }

  function DeleteUserFrom(c: Config, who: Identity, user: string): (Config, Outcome) {
    if user == who.name then (c, OwnAccount)
    else if user !in c.users then (c, Missing)
    else if c.users[user].role.Admin? && |Admins(c.users)| <= 1 then (c, LastAdmin)
    else
      (Config(c.users - {user}, c.presets, map h | h in c.tokens && c.tokens[h].owner != user :: c.tokens[h]), Done)
  }

  function ChangePasswordIn(c: Config, who: Identity, r: Request): (Config, Outcome)
    requires r.ChangePassword?
  {
    if who.session.None? then (c, NotInteractive)
    else if |r.password| < MIN_PASSWORD then (c, BadPassword)
    else if who.session.value !in c.users || c.users[who.session.value].password != r.oldPassword then (c, BadPassword)
    else
      var rec := c.users[who.session.value];
      var rec := rec.(password := r.password, mustChange := false, generation := rec.generation + 1);
      (c.(users := c.users[who.session.value := rec]), Done)
  }

  function SavePresetIn(c: Config, name: string, tags: seq<string>): (Config, Outcome) {
    if !ValidName(name) then (c, BadName)
    else if Tags.Clean(tags) == [] then (c, NoTags)
    else (c.(presets := c.presets[name := Tags.Clean(tags)]), Done)
  }

  predicate Held(users: map<string, User>, preset: string) {
    exists u :: u in users && users[u].preset == Some(preset)
  }

  function DeletePresetFrom(c: Config, name: string): (Config, Outcome) {
    if name !in c.presets then (c, Missing)
    else if Held(c.users, name) then (c, InUse)
    else (c.(presets := c.presets - {name}), Done)
  }

  function CreateTokenIn(c: Config, who: Identity, r: Request): (Config, Outcome)
    requires r.CreateToken?
  {
    var name := if r.tokenName == "" then "token" else r.tokenName;
    if who.viaToken || who.session.None? then (c, NotInteractive)
    else if !ValidTokenName(name) then (c, BadName)
    else (c.(tokens := c.tokens[r.hash := Token(r.id, who.name, name)]), Done)
  }

  /** The first token with the id goes, if the caller may revoke it. */
  function DeleteTokenFrom(c: Config, who: Identity, id: string, first: string): (Config, Outcome) {
    if first !in c.tokens || c.tokens[first].id != id then (c, Missing)
    else if !who.role.Admin? && c.tokens[first].owner != who.name then (c, Missing)
    else (c.(tokens := c.tokens - {first}), Done)
  }

  /** One request: the configuration afterwards and what the caller is told. */
  function Apply(c: Config, who: Identity, r: Request): (Config, Outcome) {
    if AdminOnly(r) && !who.role.Admin? then (c, Forbidden)
    else
      match r
      case AddUser(_, _, _, _, _) => AddUserTo(c, r)
      case UpdateUser(_, _, _, _, _, _) => UpdateUserIn(c, who, r)
      case DeleteUser(user) => DeleteUserFrom(c, who, user)
      case ChangePassword(_, _) => ChangePasswordIn(c, who, r)
      case SavePreset(name, tags) => SavePresetIn(c, name, tags)
      case DeletePreset(name) => DeletePresetFrom(c, name)
      case CreateToken(_, _, _) => CreateTokenIn(c, who, r)
      case DeleteToken(id, first) => DeleteTokenFrom(c, who, id, first)
  }

  // ---- When a request succeeds, in terms of what the sender can see ----

  /** At least eight characters. */
  predicate PasswordAccepted(password: string) {
    |password| >= 8
  }

  /** Up to 32 letters, digits, dots, underscores and hyphens. */
  predicate NameAccepted(name: string) {
    && 1 <= |name| <= 32
    && forall i :: 0 <= i < |name| ==>
         var u := name[i] as int;
         48 <= u <= 57 || 65 <= u <= 90 || 97 <= u <= 122 || u in {45, 46, 95}
  }

  predicate AddAccepted(c: Config, who: Identity, r: Request)
    requires r.AddUser?
  {
    && who.role.Admin? && NameAccepted(r.user) && r.role.Some? && PasswordAccepted(r.password)
    && r.user !in c.users && (!r.role.value.Admin? && r.preset != "" ==> r.preset in c.presets)
  }

  predicate UpdateAccepted(c: Config, who: Identity, r: Request)
    requires r.UpdateUser?
  {
    && who.role.Admin? && r.user in c.users
    && r.newRole != Some(None) && (r.newRole.Some? && r.newRole.value != Some(Admin) ==> r.user != who.name)
    && (r.password != "" ==> PasswordAccepted(r.password))
    && (r.setPreset.Some? && r.setPreset.value != "" ==> r.setPreset.value in c.presets)
  }

  /** Of the admins only a second one, and never the sender, can be deleted. */
  predicate DeleteAccepted(c: Config, who: Identity, user: string) {
    && who.role.Admin? && user != who.name && user in c.users
    && (c.users[user].role.Admin? ==> exists u :: u in c.users && u != user && c.users[u].role.Admin?)
  }

  predicate ChangeAccepted(c: Config, who: Identity, r: Request)
    requires r.ChangePassword?
  {
    && who.session.Some? && PasswordAccepted(r.password)
    && who.session.value in c.users && c.users[who.session.value].password == r.oldPassword
  }

  predicate MintAccepted(who: Identity, r: Request)
    requires r.CreateToken?
  {
    && !who.viaToken && who.session.Some?
    && |r.tokenName| <= 48 && forall i :: 0 <= i < |r.tokenName| ==> r.tokenName[i] as int >= 32
  }

  predicate SaveAccepted(who: Identity, r: Request)
    requires r.SavePreset?
  {
    who.role.Admin? && NameAccepted(r.preset) && exists t :: t in r.tags && Tags.Strip(t) != ""
  }

  predicate DropAccepted(c: Config, who: Identity, r: Request)
    requires r.DeletePreset?
  {
    who.role.Admin? && r.preset in c.presets && forall u :: u in c.users ==> c.users[u].preset != Some(r.preset)
  }

  /** One's own token, or anyone's for an admin. */
  predicate RevokeAccepted(c: Config, who: Identity, r: Request)
    requires r.DeleteToken?
  {
    && r.first in c.tokens && c.tokens[r.first].id == r.id
    && (c.tokens[r.first].owner == who.name || who.role.Admin?)
  }

  predicate Accepted(c: Config, who: Identity, r: Request) {
    match r
    case AddUser(_, _, _, _, _) => AddAccepted(c, who, r)
    case UpdateUser(_, _, _, _, _, _) => UpdateAccepted(c, who, r)
    case DeleteUser(user) => DeleteAccepted(c, who, user)
    case ChangePassword(_, _) => ChangeAccepted(c, who, r)
    case SavePreset(_, _) => SaveAccepted(who, r)
    case DeletePreset(_) => DropAccepted(c, who, r)
    case CreateToken(_, _, _) => MintAccepted(who, r)
    case DeleteToken(_, _) => RevokeAccepted(c, who, r)
  }

  lemma NameMeans(name: string)
    ensures ValidName(name) <==> NameAccepted(name)
  {
    forall i | 0 <= i < |name|
      ensures ('A' <= name[i] <= 'Z' || 'a' <= name[i] <= 'z' || '0' <= name[i] <= '9' || name[i] in "._-")
         <==> var u := name[i] as int; 48 <= u <= 57 || 65 <= u <= 90 || 97 <= u <= 122 || u in {45, 46, 95}
    {
      assert name[i] in "._-" <==> name[i] == "._-"[0] || name[i] == "._-"[1] || name[i] == "._-"[2];
    }
  }

  lemma TokenNameMeans(name: string)
    ensures ValidTokenName(if name == "" then "token" else name)
       <==> |name| <= 48 && forall i :: 0 <= i < |name| ==> name[i] as int >= 32
  {
    var s := if name == "" then "token" else name;
    assert (forall c :: c in s ==> c as int > 0x1f) <==> forall i :: 0 <= i < |s| ==> s[i] as int > 0x1f by {
      assert forall i :: 0 <= i < |s| ==> s[i] in s;
    }
  }

  lemma SecondAdmin(c: Config, user: string)
    requires user in c.users && c.users[user].role.Admin?
    ensures |Admins(c.users)| <= 1 <==> !exists u :: u in c.users && u != user && c.users[u].role.Admin?
  {
    var admins := Admins(c.users);
    assert user in admins && |admins - {user}| == |admins| - 1;
    assert admins - {user} == {} <==> |admins| <= 1;
    if u :| u in c.users && u != user && c.users[u].role.Admin? {
      assert u in admins - {user};
    }
  }

  /** A request succeeds exactly under these guards on what it asks, its sender and the configuration before it. */
  lemma AcceptedExactly(c: Config, who: Identity, r: Request)
    ensures Apply(c, who, r).1.Done? <==> Accepted(c, who, r)
  {
    match r
    case AddUser(user, _, _, _, _) => NameMeans(user);
    case SavePreset(name, tags) =>
      NameMeans(name);
      Tags.CleanEmpty(tags);
    case DeleteUser(user) =>
      if user in c.users && c.users[user].role.Admin? {
        SecondAdmin(c, user);
      }
    case CreateToken(_, _, tokenName) => TokenNameMeans(tokenName);
    case _ =>
    hide Tags.Clean, Tags.Strip, ValidName, ValidTokenName, Admins, NameAccepted;
  }

  // ---- What an accepted request leaves behind ----

  /** The configurations agree on everything but this login. */
  predicate OnlyLogin(c: Config, after: Config, user: string) {
    && after.presets == c.presets && after.tokens == c.tokens
    && after.users.Keys == c.users.Keys + {user}
    && forall u :: u in c.users && u != user ==> after.users[u] == c.users[u]
  }

  /** A new login with the role, password and scope asked for, that must change its password. */
  predicate Added(c: Config, after: Config, r: Request)
    requires r.AddUser?
  {
    && r.user !in c.users && OnlyLogin(c, after, r.user) && r.role.Some?
    && var rec, bound := after.users[r.user], !r.role.value.Admin? && r.preset != "";
       && rec.role == r.role.value && rec.password == r.password && rec.mustChange && rec.generation == 0
       && rec.preset == (if bound then Some(r.preset) else None)
       && rec.tags == (if bound || r.role.value.Admin? then [] else Tags.Clean(r.tags))
  }

  /** The login with what the request names, and the rest as it was; its scope follows its new role. */
  predicate Updated(c: Config, after: Config, r: Request)
    requires r.UpdateUser?
  {
    && r.user in c.users && OnlyLogin(c, after, r.user)
    && var old', rec := c.users[r.user], after.users[r.user];
       && (if r.newRole.Some? then r.newRole.value == Some(rec.role) else rec.role == old'.role)
       && rec.password == (if r.password != "" then r.password else old'.password)
       && rec.mustChange == (old'.mustChange || r.password != "")
       && rec.generation == old'.generation + (if r.password != "" then 1 else 0) + (if r.revoke then 1 else 0)
       && (if r.setPreset.None? && r.setTags.None? then rec.preset == old'.preset && rec.tags == old'.tags
           else if rec.role.Admin? then rec.preset == None && rec.tags == []
           else if r.setPreset.Some? && r.setPreset.value != "" then rec.preset == r.setPreset && rec.tags == []
           else rec.preset == None && rec.tags == if r.setTags.Some? then Tags.Clean(r.setTags.value) else [])
  }

  /** The login with the new password, freed from changing it; its other sessions end. */
  predicate PasswordChanged(c: Config, after: Config, who: Identity, r: Request)
    requires r.ChangePassword?
  {
    && who.session.Some? && who.session.value in c.users && OnlyLogin(c, after, who.session.value)
    && var old', rec := c.users[who.session.value], after.users[who.session.value];
       && rec.role == old'.role && rec.tags == old'.tags && rec.preset == old'.preset
       && rec.password == r.password && !rec.mustChange && rec.generation == old'.generation + 1
  }

  /** The login and all its tokens are gone, and nothing else is. */
  ghost predicate Deleted(c: Config, after: Config, user: string) {
    && after.presets == c.presets
    && (forall u :: u in after.users <==> u in c.users && u != user)
    && (forall u :: u in after.users ==> after.users[u] == c.users[u])
    && (forall h :: h in after.tokens <==> h in c.tokens && c.tokens[h].owner != user)
    && (forall h :: h in after.tokens ==> after.tokens[h] == c.tokens[h])
  }

  /** The whole configuration after an accepted request. */
  ghost predicate Performed(c: Config, after: Config, who: Identity, r: Request) {
    match r
    case AddUser(_, _, _, _, _) => Added(c, after, r)
    case UpdateUser(_, _, _, _, _, _) => Updated(c, after, r)
    case DeleteUser(user) => Deleted(c, after, user)
    case ChangePassword(_, _) => PasswordChanged(c, after, who, r)
    case SavePreset(name, tags) => after == Config(c.users, c.presets[name := Tags.Clean(tags)], c.tokens)
    case DeletePreset(name) => after == Config(c.users, c.presets - {name}, c.tokens)
    case CreateToken(hash, id, name) =>
      after == Config(c.users, c.presets, c.tokens[hash := Token(id, who.name, if name != "" then name else "token")])
    case DeleteToken(_, first) => after == Config(c.users, c.presets, c.tokens - {first})
  }

  /** An accepted request does what it asks and touches nothing else; a refused one changes nothing. */
  lemma PerformedExactly(c: Config, who: Identity, r: Request)
    ensures if Accepted(c, who, r) then Performed(c, Apply(c, who, r).0, who, r) else Apply(c, who, r).0 == c
  {
    AcceptedExactly(c, who, r);
    hide Accepted, Tags.Clean, ValidName, ValidTokenName, Held, Admins;
    if r.UpdateUser? {
      UpdatePerformed(c, who, r);
      hide UpdateUserIn, Updated;
    } else {
      hide UpdateUserIn, Updated;
    }
  }

  lemma UpdatePerformed(c: Config, who: Identity, r: Request)
    requires r.UpdateUser?
    ensures if UpdateUserIn(c, who, r).1.Done? then Updated(c, UpdateUserIn(c, who, r).0, r)
            else UpdateUserIn(c, who, r).0 == c
  {
    hide Tags.Clean, ValidName, ValidTokenName, Held, Admins;
  }

  // ---- Scopes ----

  /** The tags a login may see; None is the whole fleet. */
  function UserScope(rec: User, presets: map<string, seq<string>>): Option<set<string>> {
    if rec.role.Admin? then None
    else if rec.preset.Some? && rec.preset.value != "" then
      if rec.preset.value !in presets then Some({}) else Limit(presets[rec.preset.value])
    else
      Limit(rec.tags)
  }

  function Limit(tags: seq<string>): Option<set<string>> {
    var s := set t | t in Tags.Clean(tags);
    if s == {} then None else Some(s)
  }

  predicate ScopeAllows(scope: Option<set<string>>, hostTags: seq<string>) {
    scope.None? || exists t :: t in scope.value && t in hostTags
  }

  /** Every preset still has a tag when it is read, and every login's preset exists. */
  predicate PresetsResolve(c: Config) {
    && (forall p :: p in c.presets ==> Tags.Clean(c.presets[p]) != [])
    && (forall u :: u in c.users && c.users[u].preset.Some? ==>
          c.users[u].preset.value != "" && c.users[u].preset.value in c.presets)
  }

  predicate TokensOwned(c: Config) {
    forall h :: h in c.tokens ==> c.tokens[h].owner in c.users
  }

  predicate HasAdmin(c: Config) {
    exists u :: u in c.users && c.users[u].role.Admin?
  }

  lemma LimitOf(tags: seq<string>)
    ensures Tags.Clean(tags) == [] <==> Limit(tags).None?
    ensures Tags.Clean(tags) != [] ==> Limit(tags) == Some(set t | t in Tags.Clean(tags)) && Limit(tags).value != {}
  {
    hide Tags.Clean;
    var s := set t | t in Tags.Clean(tags);
    assert Limit(tags) == if s == {} then None else Some(s);
    if Tags.Clean(tags) != [] {
      assert Tags.Clean(tags)[0] in s;
    }
  }

  /**
    * A login sees a host exactly if it is an admin; or its preset exists and has, when it is read, no tag or one of
    * the host's; or it has no preset and its own tags, when they are read, are none or include one of the host's.
    */
  lemma SeesExactly(rec: User, presets: map<string, seq<string>>, hostTags: seq<string>)
    ensures ScopeAllows(UserScope(rec, presets), hostTags)
       <==> || rec.role.Admin?
            || (&& rec.preset.Some? && rec.preset.value != "" && rec.preset.value in presets
                && Overlap(Tags.Clean(presets[rec.preset.value]), hostTags))
            || (rec.preset in {None, Some("")} && Overlap(Tags.Clean(rec.tags), hostTags))
  {
    if rec.preset.Some? && rec.preset.value in presets {
      LimitOf(presets[rec.preset.value]);
    }
    LimitOf(rec.tags);
    hide Tags.Clean, Limit;
  }

  /** No tag at all, or a common one. */
  predicate Overlap(tags: seq<string>, hostTags: seq<string>) {
    tags == [] || exists t :: t in tags && t in hostTags
  }

  /** A login bound to a preset sees exactly that preset's tags: never nothing and never the whole fleet. */
  lemma PresetScope(c: Config, user: string)
    requires PresetsResolve(c) && user in c.users && c.users[user].preset.Some? && !c.users[user].role.Admin?
    ensures
      var scope := UserScope(c.users[user], c.presets);
      && scope.Some? && scope.value != {}
      && scope.value == set t | t in Tags.Clean(c.presets[c.users[user].preset.value])
  {
    hide Tags.Clean, Limit;
    LimitOf(c.presets[c.users[user].preset.value]);
  }

  /**
    * Literal tags, cleaned when they were saved and again when they are read, leave the fleet open exactly if
    * all were blank.
    */
  lemma LiteralScope(role: Role, input: seq<string>, presets: map<string, seq<string>>, password: string)
    requires !role.Admin?
    ensures UserScope(User(role, Tags.Clean(input), None, password, true, 0), presets).None?
       <==> forall t :: t in input ==> Tags.Strip(t) == ""
  {
    Tags.CleanEmpty(input);
    Tags.CleanAgain(input);
    LimitOf(Tags.Clean(input));
    hide Tags.Clean, Limit, Tags.Strip;
  }

  /**
    * A host and a login given the same tags match exactly when all were blank, which leaves the login open, or
    * the cut to 64 characters left one kept tag without a trailing space: a login's tags are cleaned once more
    * when they are read.
    */
  lemma SameTagsMatch(tags: seq<string>, role: Role, presets: map<string, seq<string>>)
    requires !role.Admin?
    ensures
      var kept := Tags.Clean(tags);
      ScopeAllows(UserScope(User(role, kept, None, "", true, 0), presets), kept)
      <==> kept == [] || exists t :: t in kept && !Tags.IsSpace(t[|t| - 1])
  {
    var kept := Tags.Clean(tags);
    Tags.CleanShape(tags);
    Tags.CleanAgain(tags);
    Tags.CleanAgainKeeps(tags);
    LimitOf(kept);
    hide Tags.Clean, Limit, Tags.IsSpace;
  }

  /** 63 letters, a space and a letter: cut to 64, the tag given to both a host and a login no longer matches. */
  lemma LongTagMisses(presets: map<string, seq<string>>)
    ensures
      var kept := Tags.Clean([seq(63, _ => 'x') + " x"]);
      !ScopeAllows(UserScope(User(Viewer, kept, None, "", true, 0), presets), kept)
  {
    var tag := seq(63, _ => 'x') + " x";
    assert tag[0] == 'x' && tag[63] == ' ' && tag[64] == 'x';
    hide *;
    CutAtSpace(tag, presets);
  }

  lemma CutAtSpace(tag: string, presets: map<string, seq<string>>)
    requires |tag| == 65 && tag[0] == 'x' && tag[63] == ' ' && tag[64] == 'x'
    ensures !ScopeAllows(UserScope(User(Viewer, Tags.Clean([tag]), None, "", true, 0), presets), Tags.Clean([tag]))
  {
    Tags.StripKeepsFirst(tag);
    assert Tags.CleanTag(tag) == tag[..64];
    Tags.CleanOne(tag);
    hide UserScope, ScopeAllows, Tags.Clean, Tags.Strip;
    SameTagsMatch([tag], Viewer, presets);
  }

  // ---- What every request keeps ----

  predicate Refers(rec: User, presets: map<string, seq<string>>) {
    rec.preset.Some? ==> rec.preset.value != "" && rec.preset.value in presets
  }

  lemma UserStored(c: Config, user: string, rec: User)
    requires PresetsResolve(c) && Refers(rec, c.presets)
    ensures PresetsResolve(c.(users := c.users[user := rec]))
  {
    hide Tags.Clean;
  }

  lemma AddKeepsPresets(c: Config, r: Request)
    requires PresetsResolve(c) && r.AddUser?
    ensures PresetsResolve(AddUserTo(c, r).0)
  {
    hide PresetsResolve, Tags.Clean, ValidName;
    if AddUserTo(c, r).1.Done? {
      UserStored(c, r.user, AddUserTo(c, r).0.users[r.user]);
    }
  }

  lemma UpdateKeepsPresets(c: Config, who: Identity, r: Request)
    requires PresetsResolve(c) && r.UpdateUser?
    ensures PresetsResolve(UpdateUserIn(c, who, r).0)
  {
    if r.user in c.users {
      assert Refers(c.users[r.user], c.presets);
    }
    hide PresetsResolve, Tags.Clean;
    if UpdateUserIn(c, who, r).1.Done? {
      UserStored(c, r.user, UpdateUserIn(c, who, r).0.users[r.user]);
    }
  }

  lemma SaveKeepsPresets(c: Config, name: string, tags: seq<string>)
    requires PresetsResolve(c)
    ensures PresetsResolve(SavePresetIn(c, name, tags).0)
  {
    Tags.CleanAgain(tags);
    hide Tags.Clean, ValidName;
  }

  lemma DeleteKeepsPresets(c: Config, name: string)
    requires PresetsResolve(c)
    ensures PresetsResolve(DeletePresetFrom(c, name).0)
  {
    hide Tags.Clean;
    if name in c.presets && !Held(c.users, name) {
      forall u | u in c.users && c.users[u].preset.Some? ensures c.users[u].preset.value != name {
        assert c.users[u].preset == Some(c.users[u].preset.value);
      }
    }
  }

  lemma PasswordKeepsPresets(c: Config, who: Identity, r: Request)
    requires PresetsResolve(c) && r.ChangePassword?
    ensures PresetsResolve(ChangePasswordIn(c, who, r).0)
  {
    hide Tags.Clean;
  }

  /** Whoever sends it and however long ago they were authenticated, a request keeps the presets resolving. */
  lemma PresetsKept(c: Config, who: Identity, r: Request)
    requires PresetsResolve(c)
    ensures PresetsResolve(Apply(c, who, r).0)
  {
    match r
    case AddUser(_, _, _, _, _) => AddKeepsPresets(c, r);
    case UpdateUser(_, _, _, _, _, _) => UpdateKeepsPresets(c, who, r);
    case ChangePassword(_, _) => PasswordKeepsPresets(c, who, r);
    case SavePreset(name, tags) => SaveKeepsPresets(c, name, tags);
    case DeletePreset(name) => DeleteKeepsPresets(c, name);
    case DeleteUser(_) => hide Tags.Clean;
    case CreateToken(_, _, _) => hide Tags.Clean;
    case DeleteToken(_, _) => hide Tags.Clean;
  }

  /** The sender exists with the role they were authenticated with, and a session is their own. */
  predicate Current(c: Config, who: Identity) {
    && who.name in c.users && c.users[who.name].role == who.role
    && (!who.viaToken ==> who.session == Some(who.name))
  }

  /** A token minted for a login that is gone. */
  predicate MintsOrphan(c: Config, who: Identity, r: Request) {
    r.CreateToken? && MintAccepted(who, r) && who.name !in c.users
  }

  /** Tokens keep an owner, except exactly when one is minted for a login that is gone. */
  lemma TokensKept(c: Config, who: Identity, r: Request)
    requires TokensOwned(c)
    ensures TokensOwned(Apply(c, who, r).0) <==> !MintsOrphan(c, who, r)
  {
    AcceptedExactly(c, who, r);
    var after := Apply(c, who, r).0;
    hide MintAccepted, Tags.Clean, ValidName, ValidTokenName, Held;
    if r.CreateToken? && Apply(c, who, r).1.Done? {
      assert r.hash in after.tokens;
    }
  }

  /** A role change that takes the only admin's role away. */
  predicate DemotesOnlyAdmin(c: Config, who: Identity, r: Request) {
    && r.UpdateUser? && UpdateAccepted(c, who, r)
    && Admins(c.users) == {r.user} && r.newRole.Some? && r.newRole.value != Some(Admin)
  }

  /** An admin always remains, except exactly when someone takes the only admin's role away. */
  lemma AdminKept(c: Config, who: Identity, r: Request)
    requires HasAdmin(c)
    ensures HasAdmin(Apply(c, who, r).0) <==> !DemotesOnlyAdmin(c, who, r)
  {
    AdminsListed(c);
    AdminsListed(Apply(c, who, r).0);
    AdminsAfter(c, who, r);
  }

  lemma AdminsListed(c: Config)
    ensures HasAdmin(c) <==> Admins(c.users) != {}
  {
    if HasAdmin(c) {
      var u :| u in c.users && c.users[u].role.Admin?;
      assert u in Admins(c.users);
    }
  }

  lemma AdminsAfter(c: Config, who: Identity, r: Request)
    requires Admins(c.users) != {}
    ensures Admins(Apply(c, who, r).0.users) == {} <==> DemotesOnlyAdmin(c, who, r)
  {
    AcceptedExactly(c, who, r);
    hide Tags.Clean, Tags.CleanTag, ValidName, ValidTokenName, Held;
    hide UpdateAccepted, AddAccepted, ChangeAccepted, MintAccepted;
    if !Apply(c, who, r).1.Done? {
      Unchanged(c, who, r);
    } else {
      match r
      case DeleteUser(user) => AdminsWithout(c, who, user);
      case UpdateUser(_, _, _, _, _, _) => AdminsUpdated(c, who, r);
      case AddUser(_, _, _, _, _) =>
        assert Admins(c.users) <= Admins(AddUserTo(c, r).0.users);
      case ChangePassword(_, _) =>
        assert Admins(c.users) == Admins(ChangePasswordIn(c, who, r).0.users);
      case SavePreset(_, _) =>
      case DeletePreset(_) =>
      case CreateToken(_, _, _) =>
      case DeleteToken(_, _) =>
    }
  }

  /** A refused request changes nothing. */
  lemma Unchanged(c: Config, who: Identity, r: Request)
    requires !Apply(c, who, r).1.Done?
    ensures Apply(c, who, r).0 == c
  {
    hide Tags.Clean, ValidName, ValidTokenName, Held;
  }

  lemma AdminsWithout(c: Config, who: Identity, user: string)
    requires Admins(c.users) != {}
    ensures Admins(DeleteUserFrom(c, who, user).0.users) != {}
  {
    LastOne(Admins(c.users), user);
    if DeleteUserFrom(c, who, user).1.Done? {
      assert Admins(DeleteUserFrom(c, who, user).0.users) == Admins(c.users) - {user};
    }
  }

  lemma AdminsUpdated(c: Config, who: Identity, r: Request)
    requires Admins(c.users) != {} && r.UpdateUser? && UpdateUserIn(c, who, r).1.Done?
    ensures Admins(UpdateUserIn(c, who, r).0.users) == {}
       <==> Admins(c.users) == {r.user} && r.newRole.Some? && r.newRole.value != Some(Admin)
  {
    hide Tags.Clean;
    LastOne(Admins(c.users), r.user);
    var rec := UpdateUserIn(c, who, r).0.users[r.user];
    assert rec.role == if r.newRole.Some? then r.newRole.value.value else c.users[r.user].role;
    assert UpdateUserIn(c, who, r).0.users == c.users[r.user := rec];
    hide UpdateUserIn;
    var after := c.users[r.user := rec];
    assert Admins(after) == Admins(c.users) - {r.user} + if rec.role.Admin? then {r.user} else {};
    assert c.users[r.user].role.Admin? <==> r.user in Admins(c.users);
  }

  lemma LastOne(s: set<string>, x: string)
    requires s != {}
    ensures s - {x} == {} <==> s == {x}
    ensures x in s && |s| > 1 ==> s - {x} != {}
  {
    if x in s && |s| > 1 {
      assert |s - {x}| == |s| - 1;
    }
  }

  /** A request sent by a login as it is now keeps all three. */
  lemma CurrentSenderKeeps(c: Config, who: Identity, r: Request)
    requires PresetsResolve(c) && TokensOwned(c) && HasAdmin(c) && Current(c, who)
    ensures
      var after := Apply(c, who, r).0;
      PresetsResolve(after) && TokensOwned(after) && HasAdmin(after)
  {
    PresetsKept(c, who, r);
    TokensKept(c, who, r);
    AdminKept(c, who, r);
    hide Tags.Clean;
    assert who.role.Admin? ==> who.name in Admins(c.users);
  }

  /** A login has a preset or literal tags, never both. */
  predicate ScopesExclusive(c: Config) {
    forall u :: u in c.users && c.users[u].preset.Some? ==> c.users[u].tags == []
  }

  lemma ExclusiveKept(c: Config, who: Identity, r: Request)
    requires ScopesExclusive(c)
    ensures ScopesExclusive(Apply(c, who, r).0)
  {
    hide Tags.Clean, ValidName, ValidTokenName, Held;
  }

  // ---- The store ----

  class Store {
    var users: map<string, User>
    var presets: map<string, seq<string>>
    var tokens: map<string, Token>

    function Now(): Config
      reads this
    {
      Config(users, presets, tokens)
    }

    constructor (admin: string, password: string)
      ensures Now() == Config(map[admin := User(Admin, [], None, password, true, 0)], map[], map[])
    {
      users := map[admin := User(Admin, [], None, password, true, 0)];
      presets, tokens := map[], map[];
    }

    method Add(who: Identity, r: Request) returns (outcome: Outcome)
      requires r.AddUser? && who.role.Admin?
      modifies this
      ensures (Now(), outcome) == Apply(old(Now()), who, r)
      ensures outcome.Done? <==> Accepted(old(Now()), who, r)
      ensures if outcome.Done? then Performed(old(Now()), Now(), who, r) else Now() == old(Now())
    {
      PerformedExactly(Now(), who, r);
      AcceptedExactly(Now(), who, r);
      hide Accepted, Performed;
      if !ValidName(r.user) { return BadName; }
      if r.role.None? { return BadRole; }
      if |r.password| < MIN_PASSWORD { return BadPassword; }
      var preset := if !r.role.value.Admin? then r.preset else "";
      var tags := [];
      if !r.role.value.Admin? && preset == "" {
        tags := Tags.CleanScopeTags(r.tags);
      }
      if r.user in users { return Exists; }
      if preset != "" && preset !in presets { return UnknownPreset; }
      var rec := User(r.role.value, tags, None, r.password, true, 0);
      if preset != "" {
        rec := rec.(preset := Some(preset));
      }
      users := users[r.user := rec];
      return Done;
    }

    /** The sender's own session is stamped anew, so that it survives. */
    method Update(who: Identity, r: Request) returns (outcome: Outcome, stamp: Option<nat>)
      requires r.UpdateUser? && who.role.Admin?
      modifies this
      ensures (Now(), outcome) == Apply(old(Now()), who, r)
      ensures outcome.Done? <==> Accepted(old(Now()), who, r)
      ensures if outcome.Done? then Performed(old(Now()), Now(), who, r) else Now() == old(Now())
      ensures stamp == if outcome.Done? && r.user == who.name then Some(users[r.user].generation) else None
    {
      PerformedExactly(Now(), who, r);
      AcceptedExactly(Now(), who, r);
      hide Accepted, Performed;
      if r.user !in users { return Missing, None; }
      var rec := users[r.user];
      if r.newRole.Some? {
        if r.newRole.value.None? { return BadRole, None; }
        if r.user == who.name && r.newRole.value != Some(Admin) { return OwnRole, None; }
        rec := rec.(role := r.newRole.value.value);
      }
      if r.password != "" {
        if |r.password| < MIN_PASSWORD { return BadPassword, None; }
        rec := rec.(password := r.password, mustChange := true, generation := rec.generation + 1);
      }
      if r.revoke {
        rec := rec.(generation := rec.generation + 1);
      }
      if r.setPreset.Some? || r.setTags.Some? {
        var preset := if r.setPreset.Some? then r.setPreset.value else "";
        if preset != "" && preset !in presets { return UnknownPreset, None; }
        if rec.role.Admin? {
          preset := "";
        }
        if preset != "" {
          rec := rec.(preset := Some(preset), tags := []);
        } else {
          var tags := [];
          if !rec.role.Admin? && r.setTags.Some? {
            tags := Tags.CleanScopeTags(r.setTags.value);
          }
          rec := rec.(preset := None, tags := tags);
        }
      }
      users := users[r.user := rec];
      return Done, if r.user == who.name then Some(rec.generation) else None;
    }

    method Delete(who: Identity, user: string) returns (outcome: Outcome)
      requires who.role.Admin?
      modifies this
      ensures (Now(), outcome) == Apply(old(Now()), who, DeleteUser(user))
      ensures outcome.Done? <==> Accepted(old(Now()), who, DeleteUser(user))
      ensures if outcome.Done? then Performed(old(Now()), Now(), who, DeleteUser(user)) else Now() == old(Now())
    {
      PerformedExactly(Now(), who, DeleteUser(user));
      AcceptedExactly(Now(), who, DeleteUser(user));
      hide Accepted, Performed;
      if user == who.name { return OwnAccount; }
      if user !in users { return Missing; }
      if users[user].role.Admin? && |Admins(users)| <= 1 { return LastAdmin; }
      users := users - {user};
      var todo := set h | h in tokens && tokens[h].owner == user;
      while todo != {}
        invariant todo <= tokens.Keys
        invariant forall h :: h in todo <==> h in tokens && tokens[h].owner == user
        invariant forall h :: h in old(tokens) && old(tokens)[h].owner != user ==> h in tokens
        invariant forall h :: h in tokens ==> h in old(tokens) && tokens[h] == old(tokens)[h]
        invariant users == old(users) - {user} && presets == old(presets)
        decreases |todo|
      {
        var h :| h in todo;
        tokens := tokens - {h};
        todo := todo - {h};
      }
      assert tokens == map h | h in old(tokens) && old(tokens)[h].owner != user :: old(tokens)[h];
      return Done;
    }

    /** The session that changed the password is stamped anew, so that it survives. */
    method SetOwnPassword(who: Identity, oldPassword: string, password: string)
      returns (outcome: Outcome, stamp: Option<nat>)
      modifies this
      ensures (Now(), outcome) == Apply(old(Now()), who, ChangePassword(oldPassword, password))
      ensures outcome.Done? <==> Accepted(old(Now()), who, ChangePassword(oldPassword, password))
      ensures if outcome.Done? then Performed(old(Now()), Now(), who, ChangePassword(oldPassword, password))
              else Now() == old(Now())
      ensures outcome.Done? ==>
                who.session.Some? && who.session.value in users && stamp == Some(users[who.session.value].generation)
      ensures !outcome.Done? ==> stamp == None
    {
      PerformedExactly(Now(), who, ChangePassword(oldPassword, password));
      AcceptedExactly(Now(), who, ChangePassword(oldPassword, password));
      hide Accepted, Performed;
      if who.session.None? { return NotInteractive, None; }
      var user := who.session.value;
      if |password| < MIN_PASSWORD { return BadPassword, None; }
      if user !in users || users[user].password != oldPassword { return BadPassword, None; }
      var rec := users[user];
      rec := rec.(password := password);
      rec := rec.(mustChange := false);
      rec := rec.(generation := rec.generation + 1);
      users := users[user := rec];
      return Done, Some(rec.generation);
    }

    method SaveScopePreset(who: Identity, name: string, input: seq<string>) returns (outcome: Outcome)
      requires who.role.Admin?
      modifies this
      ensures (Now(), outcome) == Apply(old(Now()), who, SavePreset(name, input))
      ensures outcome.Done? <==> Accepted(old(Now()), who, SavePreset(name, input))
      ensures if outcome.Done? then Performed(old(Now()), Now(), who, SavePreset(name, input)) else Now() == old(Now())
    {
      PerformedExactly(Now(), who, SavePreset(name, input));
      AcceptedExactly(Now(), who, SavePreset(name, input));
      hide Accepted, Performed;
      if !ValidName(name) { return BadName; }
      var tags := Tags.CleanScopeTags(input);
      if tags == [] { return NoTags; }
      presets := presets[name := tags];
      return Done;
    }

    method DeleteScopePreset(who: Identity, name: string) returns (outcome: Outcome)
      requires who.role.Admin?
      modifies this
      ensures (Now(), outcome) == Apply(old(Now()), who, DeletePreset(name))
      ensures outcome.Done? <==> Accepted(old(Now()), who, DeletePreset(name))
      ensures if outcome.Done? then Performed(old(Now()), Now(), who, DeletePreset(name)) else Now() == old(Now())
    {
      PerformedExactly(Now(), who, DeletePreset(name));
      AcceptedExactly(Now(), who, DeletePreset(name));
      hide Accepted, Performed;
      if name !in presets { return Missing; }
      var holders := set u | u in users && users[u].preset == Some(name);
      assert Held(users, name) <==> holders != {} by {
        assert forall u :: u in holders <==> u in users && users[u].preset == Some(name);
      }
      if holders != {} {
        var u :| u in holders;
        return InUse;
      }
      presets := presets - {name};
      return Done;
    }

    method MintToken(who: Identity, hash: string, id: string, tokenName: string) returns (outcome: Outcome)
      modifies this
      ensures (Now(), outcome) == Apply(old(Now()), who, CreateToken(hash, id, tokenName))
      ensures outcome.Done? <==> Accepted(old(Now()), who, CreateToken(hash, id, tokenName))
      ensures if outcome.Done? then Performed(old(Now()), Now(), who, CreateToken(hash, id, tokenName))
              else Now() == old(Now())
    {
      PerformedExactly(Now(), who, CreateToken(hash, id, tokenName));
      AcceptedExactly(Now(), who, CreateToken(hash, id, tokenName));
      hide Accepted, Performed;
      if who.viaToken || who.session.None? { return NotInteractive; }
      var name := if tokenName == "" then "token" else tokenName;
      if !ValidTokenName(name) { return BadName; }
      tokens := tokens[hash := Token(id, who.name, name)];
      return Done;
    }

    /** The hash stored first is the dictionary's to say when several tokens share the id. */
    method RevokeToken(who: Identity, id: string, first: string) returns (outcome: Outcome)
      requires (exists h :: h in tokens && tokens[h].id == id) ==> first in tokens && tokens[first].id == id
      modifies this
      ensures (Now(), outcome) == Apply(old(Now()), who, DeleteToken(id, first))
      ensures outcome.Done? <==> Accepted(old(Now()), who, DeleteToken(id, first))
      ensures if outcome.Done? then Performed(old(Now()), Now(), who, DeleteToken(id, first)) else Now() == old(Now())
    {
      PerformedExactly(Now(), who, DeleteToken(id, first));
      AcceptedExactly(Now(), who, DeleteToken(id, first));
      hide Accepted, Performed;
      var hits := set h | h in tokens && tokens[h].id == id;
      assert hits == {} ==> first !in tokens || tokens[first].id != id by {
        assert forall h :: h in hits <==> h in tokens && tokens[h].id == id;
      }
      if hits == {} { return Missing; }
      if tokens[first].owner != who.name && !who.role.Admin? { return Missing; }
      tokens := tokens - {first};
      return Done;
    }
  }
}
