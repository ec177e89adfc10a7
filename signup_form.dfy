/**
  The values behind the signup form in src/components/signup.js: the form
  snapshot, the error map its validator builds, the list of selectable
  preferences, and the pure rules the component's handlers follow.
 */
module SignUpForm {
  import opened JsString
  import EmailPattern

  /** The `formData` object: three text inputs and two multi-select arrays. */
  datatype FormData = FormData(
    email: string,
    password: string,
    fullName: string,
    preferences: seq<string>,
    categories: seq<string>)

  /** The keys of `formData`, which are also the keys of the error map. */
  datatype Field = Email | Password | FullName | Preferences | Categories

  /** What an input hands to `handleChange`: a text value or a selected array. */
  datatype Value = Text(text: string) | Items(items: seq<string>)

  const EmptyForm := FormData("", "", "", [], [])

  /** The nine options the preferences list starts with. */
  const PreferenceSeeds: seq<string> := [
    "Business",
    "Current Affairs",
    "Education",
    "Entertainment",
    "Environment & Nature",
    "Health & Wellness",
    "Science & Technology",
    "Sports",
    "World News"
  ]

  const MinPasswordLength := 6

  /** The five messages the validator can store. */
  datatype ErrorMessage =
    | InvalidEmail
    | PasswordTooShort
    | FullNameRequired
    | PreferenceRequired
    | CategoryRequired

  /** The wording of each message, as the form displays it. */
  function Wording(m: ErrorMessage): string {
    match m
    case InvalidEmail => "Please enter a valid email address."
    case PasswordTooShort => "Password must be at least 6 characters long."
    case FullNameRequired => "Full name is required."
    case PreferenceRequired => "Please select at least one preference."
    case CategoryRequired => "Please select at least one category."
  }

  /**
    Different messages read differently, so a map of messages and the map of
    their wordings carry the same information.
   */
  lemma WordingsDistinct(m: ErrorMessage, n: ErrorMessage)
    requires Wording(m) == Wording(n)
    ensures m == n
  {
    assert |Wording(m)| == |Wording(n)|;
  }

  /** The message the validator stores under each failing key. */
  function Message(k: Field): ErrorMessage {
    match k
    case Email => InvalidEmail
    case Password => PasswordTooShort
    case FullName => FullNameRequired
    case Preferences => PreferenceRequired
    case Categories => CategoryRequired
  }

  // ---------------------------------------------------------------- fields

  /** `formData[k]`. */
  function Get(f: FormData, k: Field): Value {
    match k
    case Email => Text(f.email)
    case Password => Text(f.password)
    case FullName => Text(f.fullName)
    case Preferences => Items(f.preferences)
    case Categories => Items(f.categories)
  }

  /** The text inputs deliver strings, the multi-selects arrays. */
  predicate Fits(k: Field, v: Value) {
    match k
    case Email | Password | FullName => v.Text?
    case Preferences | Categories => v.Items?
  }

  /** `{ ...f, [k]: v }`: field `k` replaced, every other field kept. */
  function WithField(f: FormData, k: Field, v: Value): (r: FormData)
    requires Fits(k, v)
    ensures Get(r, k) == v
    ensures forall j :: j != k ==> Get(r, j) == Get(f, j)
  {
    match k
    case Email => f.(email := v.text)
    case Password => f.(password := v.text)
    case FullName => f.(fullName := v.text)
    case Preferences => f.(preferences := v.items)
    case Categories => f.(categories := v.items)
  }

  // ------------------------------------------------------------ validation

  /** The condition, as written, under which the validator reports key `k`. */
  predicate Fails(f: FormData, k: Field) {
    match k
    case Email => f.email == "" || !EmailPattern.Test(f.email)
    case Password => f.password == "" || |f.password| < MinPasswordLength
    case FullName => f.fullName == "" || |f.fullName| < 1
    case Preferences => |f.preferences| == 0
    case Categories => |f.categories| == 0
  }

  /** One rule of the validator: record `k`'s message when its check fails. */
  function Check(f: FormData, errs: map<Field, ErrorMessage>, k: Field): map<Field, ErrorMessage> {
    if Fails(f, k) then errs[k := Message(k)] else errs
  }

  /** The error map `validateInputs` builds from a snapshot, one rule after another. */
  function Validate(f: FormData): map<Field, ErrorMessage> {
    var errs := Check(f, map[], Email);
    var errs := Check(f, errs, Password);
    var errs := Check(f, errs, FullName);
    var errs := Check(f, errs, Preferences);
    Check(f, errs, Categories)
  }

  /**
    What the error map means: one entry per failing rule, each with its fixed
    message, and nothing else. The email rule fails exactly when no substring
    matches the pattern; no field is trimmed.
   */
  lemma ValidateReportsFailingRules(f: FormData)
    ensures Email in Validate(f) <==> !EmailPattern.Matches(f.email)
    ensures Password in Validate(f) <==> |f.password| < 6
    ensures FullName in Validate(f) <==> f.fullName == ""
    ensures Preferences in Validate(f) <==> f.preferences == []
    ensures Categories in Validate(f) <==> f.categories == []
    ensures forall k | k in Validate(f) :: Validate(f)[k] == Message(k)
  {
    EmailPattern.TestIsMatch(f.email);
    EmailPattern.EmptyNeverMatches();
    var errs := Validate(f);
    forall k | k in errs
      ensures errs[k] == Message(k)
    {
      match k
      case Email =>
      case Password =>
      case FullName =>
      case Preferences =>
      case Categories =>
    }
  }

  /** A form is accepted exactly when all five rules pass. */
  lemma AcceptedIffAllRulesPass(f: FormData)
    ensures Validate(f) == map[] <==>
      && EmailPattern.Matches(f.email)
      && |f.password| >= 6
      && f.fullName != ""
      && f.preferences != []
      && f.categories != []
  {
    ValidateReportsFailingRules(f);
    var errs := Validate(f);
    if EmailPattern.Matches(f.email) && |f.password| >= 6 && f.fullName != ""
      && f.preferences != [] && f.categories != []
    {
      forall k ensures k !in errs {
        match k
        case Email =>
        case Password =>
        case FullName =>
        case Preferences =>
        case Categories =>
      }
    }
  }

  /** Each key of the error map depends on its own field and nothing else. */
  lemma KeyDependsOnlyOnItsField(f: FormData, g: FormData, k: Field)
    requires Get(f, k) == Get(g, k)
    ensures k in Validate(f) <==> k in Validate(g)
    ensures k in Validate(f) ==> Validate(f)[k] == Validate(g)[k]
  {
    ValidateReportsFailingRules(f);
    ValidateReportsFailingRules(g);
    match k
    case Email => assert f.email == g.email;
    case Password => assert f.password == g.password;
    case FullName => assert f.fullName == g.fullName;
    case Preferences => assert f.preferences == g.preferences;
    case Categories => assert f.categories == g.categories;
  }

  /** Editing one field can add or remove only that field's error. */
  lemma ChangeAffectsOnlyItsKey(f: FormData, k: Field, v: Value, j: Field)
    requires Fits(k, v) && j != k
    ensures j in Validate(WithField(f, k, v)) <==> j in Validate(f)
  {
    KeyDependsOnlyOnItsField(WithField(f, k, v), f, j);
  }

  /** Spoiling one field of an accepted form reports at most that field. */
  lemma OneBadFieldOneError(f: FormData, k: Field, v: Value)
    requires Validate(f) == map[] && Fits(k, v)
    ensures Validate(WithField(f, k, v)).Keys <= {k}
  {
    forall j | j in Validate(WithField(f, k, v))
      ensures j == k
    {
      if j != k {
        ChangeAffectsOnlyItsKey(f, k, v, j);
      }
    }
  }

  /** No trimming: a name of spaces is accepted, the empty name is not. */
  lemma BlankNameAccepted(f: FormData)
    requires f.fullName == " "
    ensures FullName !in Validate(f)
    ensures FullName in Validate(f.(fullName := ""))
  {
    ValidateReportsFailingRules(f);
    ValidateReportsFailingRules(f.(fullName := ""));
  }

  // ------------------------------------------------------ preference options

  predicate NoDuplicates(s: seq<string>) {
    forall i, j | 0 <= i < j < |s| :: s[i] != s[j]
  }

  /** The seed list is duplicate-free. */
  lemma SeedsDistinct()
    ensures NoDuplicates(PreferenceSeeds)
  {
    var s := PreferenceSeeds;
    assert s[2][1] != s[3][1] && s[2][1] != s[4][1] && s[3][2] != s[4][2];
    assert s[6][1] != s[7][1];
  }

  /**
    The options updater of the custom-preference adder: the value is
    appended unless an equal string (case-sensitive) is already listed.
   */
  function AppendIfAbsent(options: seq<string>, v: string): seq<string> {
    if v in options then options else options + [v]
  }

  /**
    The options list keeps its entries in order, gains at most the new value,
    holds it afterwards, is untouched when it was already listed, and stays
    duplicate-free.
   */
  lemma AppendIfAbsentKeepsOptions(options: seq<string>, v: string)
    ensures var r := AppendIfAbsent(options, v);
      && v in r
      && options <= r && |r| <= |options| + 1
      && (forall x :: x in r <==> x in options || x == v)
      && (v in options ==> r == options)
      && (NoDuplicates(options) ==> NoDuplicates(r))
  {
    if v !in options {
      var r := options + [v];
      assert forall i | 0 <= i < |options| :: r[i] == options[i];
      assert r[|options|] == v;
    }
  }

  /** A duplicate-free list holds each of its members exactly once. */
  lemma {:induction false} ListedOnce(s: seq<string>, v: string)
    requires NoDuplicates(s) && v in s
    ensures multiset(s)[v] == 1
  {
    if s[0] == v {
      assert v !in s[1..];
      assert s == [s[0]] + s[1..];
    } else {
      ListedOnce(s[1..], v);
      assert s == [s[0]] + s[1..];
    }
  }

  // ------------------------------------------------------- component state

  /** The four state cells of the component. */
  datatype SignUpState = SignUpState(
    formData: FormData,
    customPreference: string,
    errors: map<Field, ErrorMessage>,
    preferencesOptions: seq<string>)

  const InitialState := SignUpState(EmptyForm, "", map[], PreferenceSeeds)

  /** What every handler keeps: the options stay duplicate-free and start with the seeds. */
  predicate Invariant(st: SignUpState) {
    NoDuplicates(st.preferencesOptions) && PreferenceSeeds <= st.preferencesOptions
  }

  lemma InitialStateInvariant()
    ensures Invariant(InitialState)
  {
    SeedsDistinct();
  }

  /**
    `handleCustomPreferenceAdd`: a blank buffer changes nothing; otherwise the
    trimmed text is selected (even when already selected), listed as an option
    when not yet listed, and the buffer is cleared.
   */
  function AddCustomPreference(st: SignUpState): SignUpState {
    var v := Trim(st.customPreference);
    if v == "" then st
    else
      SignUpState(
        st.formData.(preferences := st.formData.preferences + [v]),
        "",
        st.errors,
        AppendIfAbsent(st.preferencesOptions, v))
  }

  /**
    A blank buffer is exactly the case where nothing changes. Otherwise the
    trimmed text is appended to the selection, the other form fields stay,
    the options gain the text only if absent, and the buffer is cleared. The
    errors never change, the options only grow, and the invariant is kept.
   */
  lemma AddCustomPreferenceSpec(st: SignUpState)
    ensures var r := AddCustomPreference(st);
      && (r == st <==> AllWhitespace(st.customPreference))
      && r.errors == st.errors
      && st.preferencesOptions <= r.preferencesOptions
      && (Invariant(st) ==> Invariant(r))
      && (!AllWhitespace(st.customPreference) ==>
        var v := Trim(st.customPreference);
        && v != "" && Trimmed(v)
        && r.formData.preferences == st.formData.preferences + [v]
        && r.formData.(preferences := st.formData.preferences) == st.formData
        && r.preferencesOptions == AppendIfAbsent(st.preferencesOptions, v)
        && r.customPreference == "")
  {
    var v := Trim(st.customPreference);
    AppendIfAbsentKeepsOptions(st.preferencesOptions, v);
    if v != "" {
      var r := AddCustomPreference(st);
      assert |r.formData.preferences| == |st.formData.preferences| + 1;
    }
  }

  /** Every selected preference stays among the options across an add. */
  lemma AddKeepsSelectionListed(st: SignUpState)
    requires forall p | p in st.formData.preferences :: p in st.preferencesOptions
    ensures var r := AddCustomPreference(st);
      forall p | p in r.formData.preferences :: p in r.preferencesOptions
  {
    AppendIfAbsentKeepsOptions(st.preferencesOptions, Trim(st.customPreference));
  }

  /**
    Adding the same text twice selects it twice but lists it once: the
    options are deduplicated, the selection is not.
   */
  lemma AddTwice(st: SignUpState, text: string)
    requires Invariant(st) && !AllWhitespace(text)
    ensures
      var once := AddCustomPreference(st.(customPreference := text));
      var twice := AddCustomPreference(once.(customPreference := text));
      var v := Trim(text);
      && twice.formData.preferences == st.formData.preferences + [v, v]
      && twice.preferencesOptions == once.preferencesOptions
      && multiset(twice.preferencesOptions)[v] == 1
  {
    var v := Trim(text);
    var s1 := st.(customPreference := text);
    assert Invariant(s1);
    AddCustomPreferenceSpec(s1);
    AppendIfAbsentKeepsOptions(st.preferencesOptions, v);
    var once := AddCustomPreference(s1);
    assert once.formData.preferences == st.formData.preferences + [v];
    assert v in once.preferencesOptions && Invariant(once);
    var s2 := once.(customPreference := text);
    AddCustomPreferenceSpec(s2);
    AppendIfAbsentKeepsOptions(once.preferencesOptions, v);
    var twice := AddCustomPreference(s2);
    assert twice.preferencesOptions == AppendIfAbsent(once.preferencesOptions, v);
    assert twice.formData.preferences == once.formData.preferences + [v];
    assert st.formData.preferences + [v] + [v] == st.formData.preferences + [v, v];
    ListedOnce(twice.preferencesOptions, v);
  }

  /** From the initial state, "  Climate  " is selected and listed after the seeds. */
  lemma AddClimateToInitialState()
    ensures
      var r := AddCustomPreference(InitialState.(customPreference := "  Climate  "));
      && r.formData.preferences == ["Climate"]
      && r.preferencesOptions == PreferenceSeeds + ["Climate"]
      && r.customPreference == ""
  {
    var st := InitialState.(customPreference := "  Climate  ");
    assert Trim(st.customPreference) == "Climate" by {
      assert "  " + "Climate" + "  " == "  Climate  ";
      TrimUnique("  ", "Climate", "  ");
    }
    ClimateIsNotASeed();
    assert AppendIfAbsent(PreferenceSeeds, "Climate") == PreferenceSeeds + ["Climate"];
  }

  lemma ClimateIsNotASeed()
    ensures "Climate" !in PreferenceSeeds
  {
    assert "Climate"[1] != "Current Affairs"[1];
  }
}
