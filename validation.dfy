/**
 * Input checks for the task form: the list of validation messages, the
 * tag-stripping and quote-doubling sanitiser, and label normalisation.
 */
module Validation {
  import opened Tasks
  import opened Strings

  // ---------------------------------------------------------------------
  // validate_task_input

  /** The messages validate_task_input can append, in the order its checks run. */
  datatype Message =
    | TitleRequired | TitleTooLong | DescriptionTooLong | BadStatus | BadPriority
    | PastDueDate | BadDueDate | BadDueTime

  /** The text of each message. */
  function MessageText(m: Message): string {
    match m
    case TitleRequired => "Title is required"
    case TitleTooLong => "Title must be less than 100 characters"
    case DescriptionTooLong => "Description must be less than 2000 characters"
    case BadStatus => "Status must be one of: To Do, In Progress, Done, Blocked"
    case BadPriority => "Priority must be one of: Critical, High, Medium, Low"
    case PastDueDate => "Warning: Due date is in the past"
    case BadDueDate => "Due date must be in YYYY-MM-DD format"
    case BadDueTime => "Due time must be in HH:MM format"
  }

  /** Reads a text back as the message it is, or None for any other text. */
  function MessageOf(t: string): Option<Message> {
    if t == MessageText(TitleRequired) then Some(TitleRequired)
    else if t == MessageText(TitleTooLong) then Some(TitleTooLong)
    else if t == MessageText(DescriptionTooLong) then Some(DescriptionTooLong)
    else if t == MessageText(BadStatus) then Some(BadStatus)
    else if t == MessageText(BadPriority) then Some(BadPriority)
    else if t == MessageText(PastDueDate) then Some(PastDueDate)
    else if t == MessageText(BadDueDate) then Some(BadDueDate)
    else if t == MessageText(BadDueTime) then Some(BadDueTime)
    else None
  }

  /** The texts differ in length, except two of 32 characters that differ in their first. */
  lemma MessageTextShapes()
    ensures |MessageText(TitleRequired)| == 17 && |MessageText(TitleTooLong)| == 38
    ensures |MessageText(DescriptionTooLong)| == 45 && |MessageText(BadStatus)| == 56
    ensures |MessageText(BadPriority)| == 52 && |MessageText(BadDueDate)| == 37
    ensures |MessageText(PastDueDate)| == 32 && MessageText(PastDueDate)[0] == 'W'
    ensures |MessageText(BadDueTime)| == 32 && MessageText(BadDueTime)[0] == 'D'
  {
  }

  lemma MessageOfText(m: Message)
    ensures MessageOf(MessageText(m)) == Some(m)
  {
    MessageTextShapes();
    match m
    case TitleRequired =>
    case TitleTooLong =>
    case DescriptionTooLong =>
    case BadStatus =>
    case BadPriority =>
    case PastDueDate =>
    case BadDueDate =>
    case BadDueTime =>
  }

  /** Different messages have different texts, so the list of texts determines the list of messages. */
  lemma MessageTextsDiffer(a: Message, b: Message)
    requires a != b
    ensures MessageText(a) != MessageText(b)
  {
    MessageOfText(a);
    MessageOfText(b);
  }

  /** The message of each check, numbered in the order validate_task_input runs them. */
  function MessageAt(k: nat): Message
    requires k < 8
  {
    if k == 0 then TitleRequired
    else if k == 1 then TitleTooLong
    else if k == 2 then DescriptionTooLong
    else if k == 3 then BadStatus
    else if k == 4 then BadPriority
    else if k == 5 then PastDueDate
    else if k == 6 then BadDueDate
    else BadDueTime
  }

  function CheckOrder(m: Message): (k: nat)
    ensures k < 8 && MessageAt(k) == m
  {
    match m
    case TitleRequired => 0
    case TitleTooLong => 1
    case DescriptionTooLong => 2
    case BadStatus => 3
    case BadPriority => 4
    case PastDueDate => 5
    case BadDueDate => 6
    case BadDueTime => 7
  }

  /** What the form submits for checking. */
  datatype Input = Input(
    title: string,
    description: Option<string>,
    status: string,
    priority: string,
    dueDate: DateField,
    dueTime: TimeField)

  /** The condition under which each message is reported. */
  predicate Fails(m: Message, x: Input, today: int) {
    match m
    case TitleRequired => x.title == ""
    case TitleTooLong => |x.title| > 100
    case DescriptionTooLong => x.description.Some? && |x.description.value| > 2000
    case BadStatus => !KnownStatus(x.status)
    case BadPriority => !KnownPriority(x.priority)
    case PastDueDate => x.dueDate.Day? && x.dueDate.ordinal < today
    case BadDueDate => x.dueDate.Text? && x.dueDate.raw != ""
    case BadDueTime => x.dueTime.BadTime? && x.dueTime.raw != ""
  }

  /** The messages of the first k checks whose condition holds, in check order. */
  function Failing(k: nat, x: Input, today: int): seq<Message>
    requires k <= 8
  {
    if k == 0 then []
    else Failing(k - 1, x, today) + (if Fails(MessageAt(k - 1), x, today) then [MessageAt(k - 1)] else [])
  }

  lemma {:induction false} FailingMembers(k: nat, x: Input, today: int, m: Message)
    requires k <= 8
    ensures m in Failing(k, x, today) <==> CheckOrder(m) < k && Fails(m, x, today)
  {
    if k > 0 {
      FailingMembers(k - 1, x, today, m);
      if m == MessageAt(k - 1) {
        assert CheckOrder(MessageAt(k - 1)) == k - 1;
      }
    }
  }

  /** Messages listed in strictly increasing check order, hence each at most once. */
  predicate InCheckOrder(f: seq<Message>) {
    forall i, j :: 0 <= i < j < |f| ==> CheckOrder(f[i]) < CheckOrder(f[j])
  }

  /** The first k checks report in strictly increasing check order. */
  lemma {:induction false} FailingOrdered(k: nat, x: Input, today: int)
    requires k <= 8
    ensures InCheckOrder(Failing(k, x, today))
  {
    if k > 0 {
      FailingOrdered(k - 1, x, today);
      var f0 := Failing(k - 1, x, today);
      forall i | 0 <= i < |f0| ensures CheckOrder(f0[i]) < k - 1 {
        FailingMembers(k - 1, x, today, f0[i]);
      }
      assert CheckOrder(MessageAt(k - 1)) == k - 1;
      var f := Failing(k, x, today);
      forall i, j | 0 <= i < j < |f| ensures CheckOrder(f[i]) < CheckOrder(f[j]) {
        assert f[i] == f0[i];
        if j < |f0| {
          assert f[j] == f0[j];
          assert InCheckOrder(f0);
        } else {
          assert f == f0 + [MessageAt(k - 1)];
          assert f[j] == MessageAt(k - 1);
          assert CheckOrder(f0[i]) < k - 1;
        }
      }
    }
  }

  /** Every check passes: the form would be accepted without a message. */
  predicate InputAccepted(x: Input, today: int) {
    && x.title != "" && |x.title| <= 100
    && (x.description.None? || |x.description.value| <= 2000)
    && KnownStatus(x.status) && KnownPriority(x.priority)
    && !(x.dueDate.Day? && x.dueDate.ordinal < today)
    && !(x.dueDate.Text? && x.dueDate.raw != "")
    && !(x.dueTime.BadTime? && x.dueTime.raw != "")
  }

  lemma AcceptedIffNothingFails(x: Input, today: int)
    ensures InputAccepted(x, today) <==> forall m :: !Fails(m, x, today)
  {
    if !InputAccepted(x, today) {
      if x.title == "" { assert Fails(TitleRequired, x, today); }
      else if |x.title| > 100 { assert Fails(TitleTooLong, x, today); }
      else if x.description.Some? && |x.description.value| > 2000 { assert Fails(DescriptionTooLong, x, today); }
      else if !KnownStatus(x.status) { assert Fails(BadStatus, x, today); }
      else if !KnownPriority(x.priority) { assert Fails(BadPriority, x, today); }
      else if x.dueDate.Day? && x.dueDate.ordinal < today { assert Fails(PastDueDate, x, today); }
      else if x.dueDate.Text? && x.dueDate.raw != "" { assert Fails(BadDueDate, x, today); }
      else { assert Fails(BadDueTime, x, today); }
    }
  }

  /**
   * The list validate_task_input returns is fixed by which checks fail: it
   * is empty exactly when the input is accepted, holds each message exactly
   * when its condition holds, and lists them in check order.
   */
  lemma FailingSpec(x: Input, today: int)
    ensures var f := Failing(8, x, today);
      && (f == [] <==> InputAccepted(x, today))
      && (forall m :: m in f <==> Fails(m, x, today))
      && InCheckOrder(f)
  {
    var f := Failing(8, x, today);
    forall m ensures m in f <==> Fails(m, x, today) {
      FailingMembers(8, x, today, m);
    }
    FailingOrdered(8, x, today);
    AcceptedIffNothingFails(x, today);
    if f != [] {
      assert f[0] in f;
    }
  }

  /**
   * validate_task_input: one message per failed check, in check order. A due
   * date before `today` only warns, but the warning is in the same list.
   */
  method ValidateTaskInput(x: Input, today: int) returns (errors: seq<Message>)
    ensures errors == Failing(8, x, today)
  {
    errors := [];
    assert Failing(1, x, today) == (if x.title == "" then [TitleRequired] else []);
    if x.title == "" {
      errors := errors + [TitleRequired];
    } else if |x.title| > 100 {
      errors := errors + [TitleTooLong];
    }
    assert errors == Failing(2, x, today);
    if x.description.Some? && |x.description.value| > 2000 {
      errors := errors + [DescriptionTooLong];
    }
    assert errors == Failing(3, x, today);
    if !KnownStatus(x.status) {
      errors := errors + [BadStatus];
    }
    assert errors == Failing(4, x, today);
    if !KnownPriority(x.priority) {
      errors := errors + [BadPriority];
    }
    assert errors == Failing(5, x, today);
    if DateGiven(x.dueDate) {
      match x.dueDate
      case Day(d) =>
        if d < today {
          errors := errors + [PastDueDate];
        }
      case Text(_) =>
        errors := errors + [BadDueDate];
      case Absent =>
    }
    assert errors == Failing(7, x, today);
    if TimeGiven(x.dueTime) && x.dueTime.BadTime? {
      errors := errors + [BadDueTime];
    }
  }

  // ---------------------------------------------------------------------
  // sanitize_input

  /** The text after the first '>' of s, if there is one. */
  function AfterClose(s: string): (r: Option<string>)
    ensures r.None? <==> '>' !in s
    ensures r.Some? ==> |r.value| < |s| && r.value == s[|s| - |r.value|..]
  {
    if |s| == 0 then None
    else if s[0] == '>' then Some(s[1..])
    else AfterClose(s[1..])
  }

  /**
   * `re.sub(r'<[^>]*>', '', s)`: each '<' that has a '>' somewhere after it
   * is removed together with everything up to the first such '>'.
   */
  function StripTags(s: string): (r: string)
    ensures |r| <= |s|
    decreases |s|
  {
    if |s| == 0 then ""
    else if s[0] == '<' && AfterClose(s[1..]).Some? then StripTags(AfterClose(s[1..]).value)
    else [s[0]] + StripTags(s[1..])
  }

  /** Stripping only removes characters. */
  lemma {:induction false} StripTagsChars(s: string, c: char)
    requires c in StripTags(s)
    ensures c in s
    decreases |s|
  {
    if s[0] == '<' && AfterClose(s[1..]).Some? {
      var after := AfterClose(s[1..]).value;
      StripTagsChars(after, c);
      var i :| 0 <= i < |after| && after[i] == c;
      assert s[|s| - |after| + i] == c;
    } else if c != s[0] {
      StripTagsChars(s[1..], c);
    }
  }

  /** No '<' is followed, anywhere later, by a '>'. */
  predicate NoTags(s: string) {
    forall i, j :: 0 <= i < j < |s| && s[i] == '<' ==> s[j] != '>'
  }

  /** After stripping, no tag-shaped run survives. */
  lemma {:induction false} StripTagsNoTags(s: string)
    ensures NoTags(StripTags(s))
    decreases |s|
  {
    if |s| == 0 {
    } else if s[0] == '<' && AfterClose(s[1..]).Some? {
      StripTagsNoTags(AfterClose(s[1..]).value);
    } else {
      StripTagsNoTags(s[1..]);
      var rest := StripTags(s[1..]);
      var r := [s[0]] + rest;
      forall i, j | 0 <= i < j < |r| && r[i] == '<' ensures r[j] != '>' {
        if i == 0 {
          assert r[j] in rest;
          assert '>' !in s[1..];
          if r[j] == '>' {
            StripTagsChars(s[1..], r[j]);
          }
        } else {
          assert r[i] == rest[i - 1] && r[j] == rest[j - 1];
        }
      }
    }
  }

  lemma {:induction false} StripTagsUnchanged(s: string)
    requires '<' !in s
    ensures StripTags(s) == s
  {
    if |s| > 0 {
      assert '<' !in s[1..];
      StripTagsUnchanged(s[1..]);
    }
  }

  /** `s.replace("'", "''")` */
  function DoubleQuotes(s: string): string {
    if |s| == 0 then ""
    else (if s[0] == '\'' then "''" else [s[0]]) + DoubleQuotes(s[1..])
  }

  function CountQuotes(s: string): nat {
    if |s| == 0 then 0 else (if s[0] == '\'' then 1 else 0) + CountQuotes(s[1..])
  }

  /** The reading that turns each "''" back into "'". */
  function UndoubleQuotes(s: string): string
    decreases |s|
  {
    if |s| >= 2 && s[0] == '\'' && s[1] == '\'' then "'" + UndoubleQuotes(s[2..])
    else if |s| == 0 then ""
    else [s[0]] + UndoubleQuotes(s[1..])
  }

  lemma {:induction false} UndoubleDoubles(s: string)
    ensures UndoubleQuotes(DoubleQuotes(s)) == s
    ensures |DoubleQuotes(s)| == |s| + CountQuotes(s)
  {
    if |s| > 0 {
      UndoubleDoubles(s[1..]);
      var d := DoubleQuotes(s);
      if s[0] == '\'' {
        assert d[2..] == DoubleQuotes(s[1..]);
      } else {
        assert d[1..] == DoubleQuotes(s[1..]);
      }
    }
  }

  lemma {:induction false} DoubleQuotesUnchanged(s: string)
    requires '\'' !in s
    ensures DoubleQuotes(s) == s
  {
    if |s| > 0 {
      assert '\'' !in s[1..];
      DoubleQuotesUnchanged(s[1..]);
    }
  }

  /** sanitize_input */
  function Sanitize(text: string): string {
    if text == "" then "" else DoubleQuotes(StripTags(text))
  }

  /**
   * The sanitiser removes tags and doubles quotes: undoing the doubling
   * gives the tag-free text, which has no tag left in it, and the output is
   * one character longer per quote.
   */
  lemma SanitizeSpec(text: string)
    ensures UndoubleQuotes(Sanitize(text)) == StripTags(text)
    ensures NoTags(StripTags(text))
    ensures |Sanitize(text)| == |StripTags(text)| + CountQuotes(StripTags(text))
  {
    UndoubleDoubles(StripTags(text));
    StripTagsNoTags(text);
  }

  /** Text with neither '<' nor a quote passes through unchanged. */
  lemma SanitizeUnchanged(text: string)
    requires '<' !in text && '\'' !in text
    ensures Sanitize(text) == text
  {
    StripTagsUnchanged(text);
    DoubleQuotesUnchanged(text);
  }

  /** Sanitising twice doubles quotes twice. */
  lemma SanitizeNotIdempotent()
    ensures Sanitize("'") == "''" && Sanitize(Sanitize("'")) == "''''"
  {
  }

  // ---------------------------------------------------------------------
  // validate_labels

  predicate LabelChar(c: char) {
    ('a' <= c <= 'z') || ('A' <= c <= 'Z') || ('0' <= c <= '9') || c == '-' || c == '_'
  }

  /** `re.match(r'^[a-zA-Z0-9\-_]+$', l)` on a stripped label. */
  predicate MatchesPattern(l: string) {
    |l| >= 1 && forall i :: 0 <= i < |l| ==> LabelChar(l[i])
  }

  /** A label the check keeps. */
  predicate GoodLabel(l: string) {
    |l| <= 20 && MatchesPattern(l)
  }

  /** The labels the input names and the check accepts: stripped comma-separated pieces. */
  function LabelSet(labels: string): set<string> {
    set p | p in Split(labels, ',') && GoodLabel(Strip(p)) :: Strip(p)
  }

  /** The non-empty stripped pieces, as a set. */
  function StrippedPieces(labels: string): set<string> {
    set p | p in Split(labels, ',') && Strip(p) != "" :: Strip(p)
  }

  lemma LabelSetIsGoodPieces(labels: string, l: string)
    ensures l in LabelSet(labels) <==> l in StrippedPieces(labels) && GoodLabel(l)
  {
    if l in StrippedPieces(labels) && GoodLabel(l) {
      var p :| p in Split(labels, ',') && Strip(p) != "" && Strip(p) == l;
      assert p in Split(labels, ',') && GoodLabel(Strip(p));
    }
  }

  lemma GoodLabelIsStripped(l: string)
    requires GoodLabel(l)
    ensures Strip(l) == l && ',' !in l
  {
    assert !IsSpace(l[0]) && !IsSpace(l[|l| - 1]);
    StripUnchanged(l);
    forall i | 0 <= i < |l| ensures l[i] != ',' {
      assert LabelChar(l[i]);
    }
  }

  /** The labels of a text whose pieces are all good are exactly those pieces. */
  lemma LabelSetOfGoodPieces(t: string, l: string)
    requires forall i :: 0 <= i < |Split(t, ',')| ==> GoodLabel(Split(t, ',')[i])
    ensures l in LabelSet(t) <==> l in Split(t, ',')
  {
    var ps := Split(t, ',');
    if l in ps {
      var i :| 0 <= i < |ps| && ps[i] == l;
      GoodLabelIsStripped(ps[i]);
      assert ps[i] in ps && GoodLabel(Strip(ps[i]));
    }
    if l in LabelSet(t) {
      var p :| p in ps && GoodLabel(Strip(p)) && Strip(p) == l;
      var i :| 0 <= i < |ps| && ps[i] == p;
      GoodLabelIsStripped(ps[i]);
    }
  }

  /** Reading back a non-empty list of good labels joined by commas gives the same labels. */
  lemma LabelSetOfJoin(kept: seq<string>, l: string)
    requires |kept| > 0 && forall i :: 0 <= i < |kept| ==> GoodLabel(kept[i])
    ensures Split(Join(kept, ','), ',') == kept
    ensures l in LabelSet(Join(kept, ',')) <==> l in kept
  {
    forall i | 0 <= i < |kept| ensures ',' !in kept[i] {
      GoodLabelIsStripped(kept[i]);
    }
    SplitJoin(kept, ',');
    LabelSetOfGoodPieces(Join(kept, ','), l);
  }

  lemma EmptyLabelSet()
    ensures LabelSet("") == {}
  {
    assert Split("", ',') == [""];
    assert !GoodLabel(Strip(""));
  }

  /** Nothing kept: the input has no good label and the result is empty. */
  lemma NoLabelsKept(labels: string)
    requires forall l :: l !in LabelSet(labels)
    ensures LabelSet(labels) == {} && LabelSet(Join([], ',')) == {}
  {
    EmptyLabelSet();
  }

  /** Some labels kept: the comma-joined result splits back into them. */
  lemma SomeLabelsKept(valid: seq<string>)
    requires |valid| > 0 && forall i :: 0 <= i < |valid| ==> GoodLabel(valid[i])
    ensures Join(valid, ',') != ""
    ensures Split(Join(valid, ','), ',') == valid
  {
    var r := Join(valid, ',');
    LabelSetOfJoin(valid, valid[0]);
    assert Split("", ',') == [""];
  }

  /** A text that splits into good labels reads as the set of those labels. */
  lemma SameLabelSet(t: string, labels: string)
    requires forall i :: 0 <= i < |Split(t, ',')| ==> GoodLabel(Split(t, ',')[i])
    requires forall l :: l in Split(t, ',') <==> l in LabelSet(labels)
    ensures LabelSet(t) == LabelSet(labels)
  {
    forall l ensures l in LabelSet(t) <==> l in LabelSet(labels) {
      LabelSetOfGoodPieces(t, l);
    }
  }

  /** The loop over the de-duplicated labels: the members of `unique` that pass `keep`, each once. */
  method KeepWhere<T(==)>(unique: set<T>, keep: T -> bool) returns (kept: seq<T>)
    ensures forall x :: x in kept <==> x in unique && keep(x)
    ensures forall i, j :: 0 <= i < j < |kept| ==> kept[i] != kept[j]
  {
    var pool := unique;
    kept := [];
    while pool != {}
      invariant pool <= unique
      invariant forall i :: 0 <= i < |kept| ==> keep(kept[i]) && kept[i] in unique && kept[i] !in pool
      invariant forall i, j :: 0 <= i < j < |kept| ==> kept[i] != kept[j]
      invariant forall x :: x in unique && x !in pool && keep(x) ==> x in kept
      decreases |pool|
    {
      var x :| x in pool;
      if keep(x) {
        kept := kept + [x];
      }
      pool := pool - {x};
    }
  }

  /**
   * validate_labels: split on commas, strip, drop empties and duplicates,
   * keep the good labels, join with commas. The order of the set is not
   * fixed, so the result is specified up to that order.
   */
  method ValidateLabels(labels: string) returns (r: string)
    ensures r == "" <==> LabelSet(labels) == {}
    ensures r != "" ==>
      var ps := Split(r, ',');
      && (forall i :: 0 <= i < |ps| ==> GoodLabel(ps[i]))
      && (forall i, j :: 0 <= i < j < |ps| ==> ps[i] != ps[j])
      && (forall l :: l in ps <==> l in LabelSet(labels))
    ensures LabelSet(r) == LabelSet(labels)
  {
    if labels == "" {
      EmptyLabelSet();
      return "";
    }
    var valid := KeepWhere(StrippedPieces(labels), GoodLabel);
    forall l ensures l in valid <==> l in LabelSet(labels) {
      LabelSetIsGoodPieces(labels, l);
    }
    r := Join(valid, ',');
    if |valid| == 0 {
      NoLabelsKept(labels);
    } else {
      SomeLabelsKept(valid);
      SameLabelSet(r, labels);
      assert valid[0] in LabelSet(labels);
    }
  }
}
