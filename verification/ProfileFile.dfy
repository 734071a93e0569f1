/** The configuration file: profiles, and the pointer to the one that answers.
    Models writeProfile and the use-profile and delete-profile bodies of
    internal/cli/configcmd.go, and the decisions internal/cli/setprofilewizard.go takes
    about activation and the command it prints. */
module ProfileFile {
  import opened Options
  import opened Strings
  import opened Shell
  import opened ProfileFlags

  datatype ProfileFields = ProfileFields(
    backend: string, addr: string, database: string, username: string,
    passwordEnv: string, passwordFile: string, tls: bool,
    bucket: string, region: string, endpoint: string, forcePathStyle: bool,
    path: string, prefix: string)

  const PROFILE_FIELD_FLAGS: Table := [
    FieldSpec("backend", false), FieldSpec("addr", false), FieldSpec("database", false),
    FieldSpec("username", false), FieldSpec("password-env", false), FieldSpec("password-file", false),
    FieldSpec("tls", true), FieldSpec("bucket", false), FieldSpec("region", false),
    FieldSpec("endpoint", false), FieldSpec("force-path-style", true), FieldSpec("path", false),
    FieldSpec("prefix", false)]

  function ToFields(f: ProfileFields): (fields: Fields)
    ensures Fits(PROFILE_FIELD_FLAGS, fields)
  {
    [Text(f.backend), Text(f.addr), Text(f.database), Text(f.username), Text(f.passwordEnv), Text(f.passwordFile),
     Flag(f.tls), Text(f.bucket), Text(f.region), Text(f.endpoint), Flag(f.forcePathStyle), Text(f.path),
     Text(f.prefix)]
  }

  function FromFields(v: Fields): ProfileFields
    requires Fits(PROFILE_FIELD_FLAGS, v)
  {
    assert forall i | 0 <= i < 13 && i != 6 && i != 10 :: !PROFILE_FIELD_FLAGS[i].boolean;
    assert PROFILE_FIELD_FLAGS[6].boolean && PROFILE_FIELD_FLAGS[10].boolean;
    ProfileFields(v[0].s, v[1].s, v[2].s, v[3].s, v[4].s, v[5].s, v[6].b,
                  v[7].s, v[8].s, v[9].s, v[10].b, v[11].s, v[12].s)
  }

  lemma CommonNames()
    ensures FlagName("backend") && FlagName("prefix") && FlagName("path")
  {
  }

  lemma ClickHouseNames()
    ensures FlagName("addr") && FlagName("database") && FlagName("username") && FlagName("tls")
  {
    assert "tls"[0] == 't' && USE[0] == 'u';
  }

  lemma PasswordEnvName()
    ensures FlagName("password-env")
  {
  }

  lemma PasswordFileName()
    ensures FlagName("password-file")
  {
  }

  lemma S3Names()
    ensures FlagName("bucket") && FlagName("region") && FlagName("endpoint")
  {
  }

  lemma PathStyleName()
    ensures FlagName("force-path-style")
  {
  }

  lemma NamesAreDistinct()
    ensures Distinct(PROFILE_FIELD_FLAGS)
  {
    var t := PROFILE_FIELD_FLAGS;
    assert t[1].name[0] == 'a' && t[11].name[0] == 'p';
    assert t[2].name[0] == 'd' && t[3].name[0] == 'u' && t[9].name[0] == 'e';
    assert t[7].name[0] == 'b' && t[8].name[0] == 'r' && t[12].name[0] == 'p';
  }

  lemma FlagTableIsWellFormed()
    ensures WellFormed(PROFILE_FIELD_FLAGS)
  {
    NamesAreDistinct();
    CommonNames();
    ClickHouseNames();
    PasswordEnvName();
    PasswordFileName();
    S3Names();
    PathStyleName();
  }

  // ---------------------------------------------------------------- profiles

  /** A stanza. It carries exactly the one section its backend names. */
  datatype Profile =
    | ClickHouse(addr: string, database: string, username: string, passwordEnv: string, passwordFile: string, tls: bool)
    | S3(bucket: string, prefix: string, region: string, endpoint: string, forcePathStyle: bool)
    | Local(path: string, prefix: string)

  const CLICKHOUSE := "clickhouse"
  const S3_BACKEND := "s3"
  const LOCAL := "local"

  function Stanza(f: ProfileFields): Option<Profile> {
    if f.backend == CLICKHOUSE then
      Some(ClickHouse(f.addr, f.database, f.username, f.passwordEnv, f.passwordFile, f.tls))
    else if f.backend == S3_BACKEND then Some(S3(f.bucket, f.prefix, f.region, f.endpoint, f.forcePathStyle))
    else if f.backend == LOCAL then Some(Local(f.path, f.prefix))
    else None
  }

  /** A stanza takes the fields of its own backend and drops the others; an unknown backend
      has none. */
  lemma StanzaTakesItsOwn(f: ProfileFields)
    ensures Stanza(f).None? <==> f.backend != "clickhouse" && f.backend != "s3" && f.backend != "local"
    ensures f.backend == "clickhouse" ==>
              var p := Stanza(f).value;
              && p.ClickHouse? && p.addr == f.addr && p.database == f.database && p.username == f.username
              && p.passwordEnv == f.passwordEnv && p.passwordFile == f.passwordFile && p.tls == f.tls
    ensures f.backend == "s3" ==>
              var p := Stanza(f).value;
              && p.S3? && p.bucket == f.bucket && p.prefix == f.prefix && p.region == f.region
              && p.endpoint == f.endpoint && p.forcePathStyle == f.forcePathStyle
    ensures f.backend == "local" ==>
              var p := Stanza(f).value; p.Local? && p.path == f.path && p.prefix == f.prefix
  {
    assert CLICKHOUSE[0] == 'c' && S3_BACKEND[0] == 's' && LOCAL[0] == 'l';
  }

  /** Each flag of the table carries the field it is named after. */
  lemma FlagsNameTheirFields(f: ProfileFields)
    ensures var t, v := PROFILE_FIELD_FLAGS, ToFields(f);
            && |t| == |v| == 13
            && t[0].name == "backend" && v[0] == Text(f.backend) && t[1].name == "addr" && v[1] == Text(f.addr)
            && t[2].name == "database" && v[2] == Text(f.database)
            && t[3].name == "username" && v[3] == Text(f.username)
            && t[4].name == "password-env" && v[4] == Text(f.passwordEnv)
            && t[5].name == "password-file" && v[5] == Text(f.passwordFile)
            && t[6].name == "tls" && v[6] == Flag(f.tls) && t[7].name == "bucket" && v[7] == Text(f.bucket)
            && t[8].name == "region" && v[8] == Text(f.region) && t[9].name == "endpoint" && v[9] == Text(f.endpoint)
            && t[10].name == "force-path-style" && v[10] == Flag(f.forcePathStyle)
            && t[11].name == "path" && v[11] == Text(f.path) && t[12].name == "prefix" && v[12] == Text(f.prefix)
  {
  }

  /** No leading or trailing slash. */
  predicate Trimmed(prefix: string) {
    prefix == "" || (prefix[0] != '/' && prefix[|prefix| - 1] != '/')
  }

  predicate Validates(p: Profile) {
    match p
    case ClickHouse(addr, _, _, passwordEnv, passwordFile, _) =>
      addr != "" && (passwordEnv == "" || passwordFile == "")
    case S3(bucket, prefix, _, endpoint, _) =>
      bucket != "" && Trimmed(prefix) && (endpoint == "" || "http://" <= endpoint || "https://" <= endpoint)
    case Local(path, prefix) =>
      path != "" && Trimmed(prefix)
  }

  /** The stanzas that are refused, by what is wrong with them. */
  lemma RefusedIff(p: Profile)
    ensures !Validates(p) <==>
            match p
            case ClickHouse(addr, _, _, passwordEnv, passwordFile, _) =>
              addr == "" || (passwordEnv != "" && passwordFile != "")
            case S3(bucket, prefix, _, endpoint, _) =>
              bucket == "" || SlashAtAnEnd(prefix) || (endpoint != "" && !HasScheme(endpoint))
            case Local(path, prefix) => path == "" || SlashAtAnEnd(prefix)
  {
    match p
    case ClickHouse(_, _, _, _, _, _) =>
    case S3(_, prefix, _, endpoint, _) =>
      SlashIff(prefix);
      StartsWithIff("http://", endpoint);
      StartsWithIff("https://", endpoint);
    case Local(_, prefix) => SlashIff(prefix);
  }

  ghost predicate StartsWith(prefix: string, s: string) {
    exists rest: string :: s == prefix + rest
  }

  ghost predicate EndsWith(suffix: string, s: string) {
    exists rest: string :: s == rest + suffix
  }

  ghost predicate SlashAtAnEnd(prefix: string) {
    StartsWith("/", prefix) || EndsWith("/", prefix)
  }

  ghost predicate HasScheme(endpoint: string) {
    StartsWith("http://", endpoint) || StartsWith("https://", endpoint)
  }

  lemma StartsWithIff(prefix: string, s: string)
    ensures StartsWith(prefix, s) <==> prefix <= s
  {
    if prefix <= s {
      assert s == prefix + s[|prefix|..];
    }
  }

  lemma SlashIff(prefix: string)
    ensures SlashAtAnEnd(prefix) <==> !Trimmed(prefix)
  {
    if prefix != "" {
      var n := |prefix| - 1;
      assert prefix[0] == '/' ==> prefix == "/" + prefix[1..];
      assert prefix[n] == '/' ==> prefix == prefix[..n] + "/";
    }
  }

  // ---------------------------------------------------------------- the file

  datatype Config = Config(profiles: map<string, Profile>, current: string)

  const EMPTY := Config(map[], "")

  /** What LoadConfig and SaveConfig both insist on. */
  ghost predicate Sound(cfg: Config) {
    && (cfg.current == "" || cfg.current in cfg.profiles)
    && (forall name | name in cfg.profiles :: Validates(cfg.profiles[name]))
  }

  predicate ActivatesOnItsOwn(cfg: Config, name: string) {
    cfg.current == "" && cfg.profiles.Keys <= {name}
  }

  predicate ActivationIsADecision(cfg: Config, name: string) {
    !ActivatesOnItsOwn(cfg, name) && cfg.current != name
  }

  function Written(cfg: Config, name: string, profile: Profile, activate: bool): Config {
    if !Validates(profile) then cfg
    else Config(cfg.profiles[name := profile],
                if activate || ActivatesOnItsOwn(cfg, name) then name else cfg.current)
  }

  function Used(cfg: Config, name: string): Config {
    if name in cfg.profiles then cfg.(current := name) else cfg
  }

  function Deleted(cfg: Config, name: string, force: bool): Config {
    if name !in cfg.profiles || (cfg.current == name && !force) then cfg
    else Config(cfg.profiles - {name}, if cfg.current == name then "" else cfg.current)
  }

  /** What a write says about the active pointer. */
  datatype Report = MadeActiveAsAsked | MadeActiveAsTheOnlyOne | UseChangedNothing | AlreadyActive | Silent

  function ActivePointerReport(activate: bool, activated: bool, wasActive: bool): Report {
    if activated && !wasActive && activate then MadeActiveAsAsked
    else if activated && !wasActive then MadeActiveAsTheOnlyOne
    else if activate then UseChangedNothing
    else if wasActive then AlreadyActive
    else Silent
  }

  datatype WriteResult = UsageError | Wrote(activated: bool, replaced: bool, report: Report)

  /** The loaded file, as the commands change it. A refused command leaves it alone. */
  class ConfigFile {
    var profiles: map<string, Profile>
    var current: string

    ghost function Value(): Config
      reads this
    {
      Config(profiles, current)
    }

    constructor ()
      ensures Value() == EMPTY
    {
      profiles, current := map[], "";
    }

    method OnlyName(name: string) returns (only: bool)
      ensures only == ActivatesOnItsOwn(Value(), name)
    {
      if current != "" {
        return false;
      }
      var others := profiles.Keys;
      while others != {}
        invariant others <= profiles.Keys && profiles.Keys - others <= {name}
        decreases others
      {
        var other :| other in others;
        if other != name {
          return false;
        }
        others := others - {other};
      }
      return true;
    }

    method WriteProfile(name: string, profile: Profile, activate: bool) returns (r: WriteResult)
      requires Sound(Value())
      modifies this
      ensures Sound(Value()) && Value() == Written(old(Value()), name, profile, activate)
      ensures r.UsageError? <==> !Validates(profile)
      ensures r.Wrote? ==> r.activated == (activate || ActivatesOnItsOwn(old(Value()), name))
      ensures r.Wrote? ==> r.replaced == (name in old(profiles))
      ensures r.Wrote? ==> r.report == ActivePointerReport(activate, r.activated, old(current) == name)
    {
      if !Validates(profile) {
        return UsageError;
      }
      var replaced := name in profiles;
      var wasActive := current == name;
      var onlyOne := OnlyName(name);
      profiles := profiles[name := profile];
      var activated := activate || onlyOne;
      if activated {
        current := name;
      }
      return Wrote(activated, replaced, ActivePointerReport(activate, activated, wasActive));
    }

    method UseProfile(name: string) returns (ok: bool)
      requires Sound(Value())
      modifies this
      ensures Sound(Value()) && Value() == Used(old(Value()), name)
      ensures ok == (name in old(profiles))
    {
      if name !in profiles {
        return false;
      }
      current := name;
      return true;
    }

    method DeleteProfile(name: string, force: bool) returns (ok: bool)
      requires Sound(Value())
      modifies this
      ensures Sound(Value()) && Value() == Deleted(old(Value()), name, force)
      ensures ok == (name in old(profiles) && (old(current) != name || force))
    {
      if name !in profiles {
        return false;
      }
      var cleared := current == name;
      if cleared && !force {
        return false;
      }
      profiles := profiles - {name};
      if cleared {
        current := "";
      }
      return true;
    }
  }

  // ---------------------------------------------------------------- runs of commands

  datatype Command =
    | SetProfile(name: string, profile: Profile, use: bool)
    | UseProfile(name: string)
    | DeleteProfile(name: string, force: bool)

  function Apply(cfg: Config, c: Command): Config {
    match c
    case SetProfile(name, profile, use) => Written(cfg, name, profile, use)
    case UseProfile(name) => Used(cfg, name)
    case DeleteProfile(name, force) => Deleted(cfg, name, force)
  }

  function RunFrom(cfg: Config, commands: seq<Command>): Config {
    if commands == [] then cfg
    else Apply(RunFrom(cfg, commands[..|commands| - 1]), commands[|commands| - 1])
  }

  /** A profile a command does not name keeps its place and its stanza. */
  lemma OthersAreKept(cfg: Config, c: Command, other: string)
    requires other != c.name
    ensures other in Apply(cfg, c).profiles <==> other in cfg.profiles
    ensures other in cfg.profiles ==> Apply(cfg, c).profiles[other] == cfg.profiles[other]
  {
  }

  /** The command changes the profile it names: a stanza that validates is written, and a
      profile that is there is deleted unless it is the active one and force is not given. */
  ghost predicate TakesEffect(before: Config, c: Command) {
    match c
    case SetProfile(_, profile, _) => Validates(profile)
    case UseProfile(_) => false
    case DeleteProfile(name, force) => name in before.profiles && (before.current != name || force)
  }

  /** The last command of the run to change the profile. */
  ghost predicate IsLastEffect(cfg: Config, commands: seq<Command>, name: string, j: nat) {
    && j < |commands| && commands[j].name == name && TakesEffect(RunFrom(cfg, commands[..j]), commands[j])
    && forall l: nat | j < l < |commands| && commands[l].name == name ::
         !TakesEffect(RunFrom(cfg, commands[..l]), commands[l])
  }

  lemma EffectOnItsName(cfg: Config, c: Command)
    ensures var after := Apply(cfg, c);
            if !TakesEffect(cfg, c) then after.profiles == cfg.profiles
            else if c.SetProfile? then c.name in after.profiles && after.profiles[c.name] == c.profile
            else c.name !in after.profiles
  {
  }

  /** Over every run, a name's stanza is that of the last command that changed it: the one
      set, or none after a delete that went through; and without such a command it is what
      it was. */
  lemma {:induction false} StanzaIsTheLastWritten(cfg: Config, commands: seq<Command>, name: string)
    ensures var after := RunFrom(cfg, commands).profiles;
            && (forall j: nat | IsLastEffect(cfg, commands, name, j) ::
                  if commands[j].SetProfile? then name in after && after[name] == commands[j].profile
                  else name !in after)
            && ((forall j: nat :: !IsLastEffect(cfg, commands, name, j)) ==>
                  && (name in after <==> name in cfg.profiles)
                  && (name in after ==> after[name] == cfg.profiles[name]))
  {
    if commands != [] {
      var n := |commands| - 1;
      var init, last := commands[..n], commands[n];
      var before := RunFrom(cfg, init);
      StanzaIsTheLastWritten(cfg, init, name);
      EffectOnItsName(before, last);
      if last.name == name && TakesEffect(before, last) {
        assert IsLastEffect(cfg, commands, name, n);
        assert forall j: nat | IsLastEffect(cfg, commands, name, j) :: j == n;
      } else {
        if last.name != name {
          OthersAreKept(before, last, name);
        }
        forall j: nat
          ensures IsLastEffect(cfg, commands, name, j) <==> IsLastEffect(cfg, init, name, j)
        {
          LastEffectBefore(cfg, commands, name, j);
        }
      }
    }
  }

  lemma LastEffectBefore(cfg: Config, commands: seq<Command>, name: string, j: nat)
    requires commands != []
    requires var n := |commands| - 1;
             commands[n].name == name ==> !TakesEffect(RunFrom(cfg, commands[..n]), commands[n])
    ensures IsLastEffect(cfg, commands, name, j) <==> IsLastEffect(cfg, commands[..|commands| - 1], name, j)
  {
    var n := |commands| - 1;
    var init := commands[..n];
    assert forall l: nat | l < n :: init[l] == commands[l] && init[..l] == commands[..l];
  }

  /** Where each command leaves the pointer: a write moves it when told to, and untold only
      to the only profile of a file that has none; use moves it to a profile that is there;
      a forced delete of the active profile clears it. */
  lemma WhereThePointerGoes(cfg: Config, c: Command)
    ensures var after := Apply(cfg, c).current;
            match c
            case SetProfile(name, profile, use) =>
              after == if Validates(profile)
                          && (use || (cfg.current == "" && forall other | other in cfg.profiles :: other == name))
                       then name else cfg.current
            case UseProfile(name) => after == if name in cfg.profiles then name else cfg.current
            case DeleteProfile(name, force) =>
              after == if name in cfg.profiles && cfg.current == name && force then "" else cfg.current
  {
    if c.SetProfile? {
      assert cfg.profiles.Keys <= {c.name} <==> forall other | other in cfg.profiles :: other == c.name;
    }
  }

  /** Over every run, the pointer is empty or names a profile that is there. */
  lemma {:induction false} PointerNeverDangles(cfg: Config, commands: seq<Command>)
    requires Sound(cfg)
    ensures Sound(RunFrom(cfg, commands))
  {
    if commands != [] {
      PointerNeverDangles(cfg, commands[..|commands| - 1]);
    }
  }

  /** A command that can take the pointer away from a profile that has it. */
  predicate AsksToMove(c: Command, from: string) {
    match c
    case SetProfile(name, _, use) => use && name != from
    case UseProfile(name) => name != from
    case DeleteProfile(name, force) => name == from && force
  }

  /** A chosen profile stays the one that answers, and stays in the file, until a command
      asks for something else: writes without --use, in any number, never displace it. */
  lemma {:induction false} PointerMovesOnlyWhenAsked(cfg: Config, commands: seq<Command>)
    requires Sound(cfg) && cfg.current != ""
    requires forall c | c in commands :: !AsksToMove(c, cfg.current)
    ensures RunFrom(cfg, commands).current == cfg.current && cfg.current in RunFrom(cfg, commands).profiles
  {
    if commands != [] {
      var last := commands[|commands| - 1];
      assert last in commands && !AsksToMove(last, cfg.current);
      PointerMovesOnlyWhenAsked(cfg, commands[..|commands| - 1]);
    }
  }

  /** The wizard asks its last question exactly when yes and no would leave different files. */
  lemma QuestionIsADecisionIff(cfg: Config, name: string, profile: Profile)
    requires Validates(profile)
    ensures ActivationIsADecision(cfg, name)
            <==> Written(cfg, name, profile, true) != Written(cfg, name, profile, false)
  {
  }

  /** The report says where the write left the pointer and why, for every profile name. */
  lemma ReportIsTrue(cfg: Config, name: string, profile: Profile, activate: bool)
    requires Sound(cfg) && Validates(profile) && name != ""
    ensures var after := Written(cfg, name, profile, activate);
            var activated := activate || ActivatesOnItsOwn(cfg, name);
            var report := ActivePointerReport(activate, activated, cfg.current == name);
            && (report.MadeActiveAsAsked? <==> after.current != cfg.current && activate)
            && (report.MadeActiveAsTheOnlyOne? <==>
                  after.current != cfg.current && !activate && after.profiles.Keys == {name})
            && (report.UseChangedNothing? <==> after.current == cfg.current && activate)
            && (report.AlreadyActive? <==> after.current == cfg.current == name && !activate)
            && (report.Silent? <==> after.current != name)
  {
    assert ActivatesOnItsOwn(cfg, name) ==> cfg.profiles.Keys + {name} == {name};
  }

  // ---------------------------------------------------------------- the printed command

  /** The wizard's typed route: ask or do not ask, write, print. */
  function AskActivation(cfg: Config, name: string, flag: bool, answer: bool): bool {
    flag || (ActivationIsADecision(cfg, name) && answer)
  }

  /** The flag decides without a question, and the answer counts exactly when yes and no
      would leave different files. */
  lemma AnswerCountsIff(cfg: Config, name: string, flag: bool, profile: Profile)
    requires Validates(profile)
    ensures flag ==> AskActivation(cfg, name, flag, true) && AskActivation(cfg, name, flag, false)
    ensures !flag ==>
              && !AskActivation(cfg, name, flag, false)
              && (AskActivation(cfg, name, flag, true)
                  <==> Written(cfg, name, profile, true) != Written(cfg, name, profile, false))
  {
    QuestionIsADecisionIff(cfg, name, profile);
  }

  /** The line the typed route ends with, --use included when the write activated. */
  function TypedLine(
    command: seq<string>, cfg: Config, name: string, f: ProfileFields, flag: bool, answer: bool, letters: Letters)
    : string
  {
    var activated := AskActivation(cfg, name, flag, answer) || ActivatesOnItsOwn(cfg, name);
    PrintedLine(command, name, PROFILE_FIELD_FLAGS, ToFields(f), activated, letters)
  }

  /** set-profile's flag route, from the words after its own name. */
  function SetProfileFromWords(words: seq<string>): Option<Command> {
    var line := ReadCommand(PROFILE_FIELD_FLAGS, words);
    if line.Refused? || |line.args| != 1 || line.args[0] == "" || !FitsTable(line.fields) then None
    else
      var stanza := Stanza(FromFields(line.fields));
      if stanza.None? then None else Some(SetProfile(line.args[0], stanza.value, line.use))
  }

  predicate FitsTable(fields: Fields)
    ensures FitsTable(fields) ==> Fits(PROFILE_FIELD_FLAGS, fields)
  {
    |fields| == 13 && forall i | 0 <= i < 13 :: fields[i].Flag? == PROFILE_FIELD_FLAGS[i].boolean
  }

  /** The printed command reproduces the outcome: split by the shell and read back as
      flags, it is the set-profile that writes the same stanza under the same name, with
      --use exactly when the wizard's own write activated the profile, and on the same
      file it leaves what the wizard left. It does so
      for every value of every field and every name but those that look like a flag. */
  lemma PrintedCommandReproducesTheWrite(
    command: seq<string>, cfg: Config, name: string, f: ProfileFields, flag: bool, answer: bool, letters: Letters)
    returns (words: seq<string>)
    requires Sound(cfg) && Stanza(f).Some? && Validates(Stanza(f).value)
    requires name != "" && IsArgument(name)
    requires forall word | word in command :: word != "" && AllBare(word, letters)
    ensures SplitWords(TypedLine(command, cfg, name, f, flag, answer, letters)) == Words(command + words)
    ensures var done := Written(cfg, name, Stanza(f).value, AskActivation(cfg, name, flag, answer));
            var activated := AskActivation(cfg, name, flag, answer) || ActivatesOnItsOwn(cfg, name);
            && SetProfileFromWords(words) == Some(SetProfile(name, Stanza(f).value, activated))
            && Apply(cfg, SetProfileFromWords(words).value) == done
            && (activated ==> done.current == name)
            && (!activated && cfg.current != name ==> done.current != name)
  {
    FlagTableIsWellFormed();
    var activated := AskActivation(cfg, name, flag, answer) || ActivatesOnItsOwn(cfg, name);
    var fields := ToFields(f);
    PrintedLineReadsBack(command, name, PROFILE_FIELD_FLAGS, fields, activated, letters);
    words := [name] + FlagWords(PROFILE_FIELD_FLAGS, fields, 0, activated);
    WordsAreTheCommand(name, f, activated);
  }

  lemma WordsAreTheCommand(name: string, f: ProfileFields, use: bool)
    requires Stanza(f).Some? && name != "" && IsArgument(name)
    ensures SetProfileFromWords([name] + FlagWords(PROFILE_FIELD_FLAGS, ToFields(f), 0, use))
            == Some(SetProfile(name, Stanza(f).value, use))
  {
    FlagTableIsWellFormed();
    WordsReadBackIff(PROFILE_FIELD_FLAGS, ToFields(f), use, name);
    FieldsRoundTrip(f);
  }

  lemma FieldsRoundTrip(f: ProfileFields)
    ensures FitsTable(ToFields(f)) && FromFields(ToFields(f)) == f
  {
  }
}
