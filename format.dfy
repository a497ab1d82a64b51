/**
 * The annotation-to-Slack-message renderer: every operation of
 * `src/slack_annotations/format.py`.
 */
module Format {
  import opened Wrappers
  import Strings
  import Html
  import Whitespace
  import opened Annotations

  const MAX_TEXT_LENGTH: nat := 2000
  const NONE_TEXT: string := "(None)"
  const STUB: string := "..."

  /** The fixed attribution block that closes every message. */
  const ATTRIBUTION: string :=
    "These annotations are posted to Slack by a <https://github.com/hypothesis/slack-annotations/|GitHub Actions workflow>"
  const CONTEXT_BLOCK: Block := Context([TextObject(Mrkdwn, ATTRIBUTION)])

  /** The one error the renderer does not recover from: `user` has no `:`, so `split(":")[1]` fails. */
  datatype FormatError = MalformedUser(user: string)

  // ---------------------------------------------------------------- titles

  /** Escaping neither creates nor removes non-whitespace text. */
  lemma {:induction false} EscapeBlank(s: string)
    ensures Whitespace.NonSpace(Html.Escape(s)) == [] <==> Whitespace.NonSpace(s) == []
    decreases |s|
  {
    if s != [] {
      EscapeBlank(s[1..]);
      var e := Html.EscapeChar(s[0]);
      assert Html.Escape(s) == e + Html.Escape(s[1..]);
      Whitespace.NonSpaceAppend(e, Html.Escape(s[1..]));
      assert e[0] in e;
      if Whitespace.IsSpace(s[0]) {
        assert e == [s[0]];
      }
      assert Whitespace.NonSpace(s) == (if Whitespace.IsSpace(s[0]) then [] else [s[0]]) + Whitespace.NonSpace(s[1..]);
    }
  }

  /**
   * `normalize_title`: HTML-escape, then join the whitespace-separated words
   * with single spaces.
   */
  function NormalizeTitle(text: string): string
  {
    Whitespace.Collapse(Html.Escape(text))
  }

  /**
   * A normalized title has single spaces between words and none at either
   * end, has exactly the words of the escaped title, keeps the escaped text's
   * non-whitespace characters in order, holds no angle bracket that could
   * break a Slack link, and is empty exactly when the title was blank.
   */
  lemma NormalizeTitleSpec(text: string)
    ensures var r := NormalizeTitle(text);
      Whitespace.Normalized(r)
      && Whitespace.Words(r) == Whitespace.Words(Html.Escape(text))
      && Whitespace.NonSpace(r) == Whitespace.NonSpace(Html.Escape(text))
      && '<' !in r && '>' !in r
      && (r == [] <==> Whitespace.NonSpace(text) == [])
  {
    var escaped := Html.Escape(text);
    var r := Whitespace.Collapse(escaped);
    Whitespace.CollapseSpec(escaped);
    Html.EscapeSpec(text);
    EscapeBlank(text);
    Whitespace.NonSpaceChars(r);
    Whitespace.NonSpaceChars(escaped);
    assert '<' in r ==> '<' in Whitespace.NonSpace(r);
    assert '>' in r ==> '>' in Whitespace.NonSpace(r);
  }

  // ---------------------------------------------------------------- text

  /**
   * `_trim_text`: text longer than MAX_TEXT_LENGTH is cut so that, with the
   * "..." stub, it is exactly MAX_TEXT_LENGTH long; shorter text is untouched.
   */
  function Trim(text: string): (r: string)
    ensures |r| <= MAX_TEXT_LENGTH
    ensures |text| <= MAX_TEXT_LENGTH ==> r == text
    ensures |text| > MAX_TEXT_LENGTH ==>
      |r| == MAX_TEXT_LENGTH
      && r[..MAX_TEXT_LENGTH - |STUB|] == text[..MAX_TEXT_LENGTH - |STUB|]
      && r[MAX_TEXT_LENGTH - |STUB|..] == STUB
  {
    if |text| > MAX_TEXT_LENGTH then text[..MAX_TEXT_LENGTH - |STUB|] + STUB else text
  }

  /** Trimming trimmed text changes nothing, and trimming never empties a text. */
  lemma TrimIdempotent(text: string)
    ensures Trim(Trim(text)) == Trim(text)
    ensures Trim(text) == [] <==> text == []
  {
  }

  /** `_get_text`: the annotation body, "(None)" when missing or empty, then trimmed. */
  function GetText(a: Annotation): (r: string)
    ensures a.text.None? || a.text == Some([]) ==> r == NONE_TEXT
    ensures a.text.Some? && a.text.value != [] ==> r == Trim(a.text.value)
    ensures r != [] && |r| <= MAX_TEXT_LENGTH
  {
    var text := if a.text.Some? && a.text.value != [] then a.text.value else NONE_TEXT;
    TrimIdempotent(text);
    Trim(text)
  }

  // ---------------------------------------------------------------- quotes

  /** `_get_quote`'s two exceptions: KeyError for a missing key, ValueError when no exact is found. */
  datatype QuoteError = MissingKey | NotFound

  /** Where the first quote was found: index into `target`, then into its `selector`. */
  datatype Position = Position(target: nat, selector: nat)

  /** `exact := selector.get("exact")` is truthy. */
  predicate HasExact(s: Selector)
  {
    s.exact.Some? && s.exact.value != []
  }

  /** A target the scan walks past: it has a selector list and none of its selectors has an exact. */
  predicate Exhausted(t: Target)
  {
    t.selector.Some? && forall j :: 0 <= j < |t.selector.value| ==> !HasExact(t.selector.value[j])
  }

  /** The index of the first selector with an exact. */
  function FirstExactIn(sels: seq<Selector>): (r: Option<nat>)
    ensures r.Some? ==>
      r.value < |sels| && HasExact(sels[r.value])
      && forall j :: 0 <= j < r.value ==> !HasExact(sels[j])
    ensures r.None? ==> forall j :: 0 <= j < |sels| ==> !HasExact(sels[j])
  {
    if sels == [] then None
    else if HasExact(sels[0]) then Some(0)
    else match FirstExactIn(sels[1..])
      case None => None
      case Some(j) => Some(j + 1)
  }

  /**
   * The search `_get_quote` performs from target `i` on: targets in the outer
   * loop, selectors in the inner one. A target without a selector list stops
   * the search with a KeyError; NotFound comes only after every pair was seen.
   */
  function FindExactFrom(ts: seq<Target>, i: nat): (r: Result<Position, QuoteError>)
    requires i <= |ts|
    ensures r.Success? ==>
      var p := r.value;
      i <= p.target < |ts| && ts[p.target].selector.Some?
      && FirstExactIn(ts[p.target].selector.value) == Some(p.selector)
      && forall k :: i <= k < p.target ==> Exhausted(ts[k])
    ensures r == Failure(NotFound) <==> forall k :: i <= k < |ts| ==> Exhausted(ts[k])
    ensures r == Failure(MissingKey) <==>
      exists k :: i <= k < |ts| && ts[k].selector.None? && forall m :: i <= m < k ==> Exhausted(ts[m])
    decreases |ts| - i
  {
    if i == |ts| then Failure(NotFound)
    else if ts[i].selector.None? then Failure(MissingKey)
    else match FirstExactIn(ts[i].selector.value)
      case Some(j) => Success(Position(i, j))
      case None => FindExactFrom(ts, i + 1)
  }

  /** The exact text at a position `FindExactFrom` returned. */
  function ExactAt(ts: seq<Target>, p: Position): (r: string)
    requires p.target < |ts| && ts[p.target].selector.Some?
    requires p.selector < |ts[p.target].selector.value|
    requires HasExact(ts[p.target].selector.value[p.selector])
    ensures r != []
  {
    ts[p.target].selector.value[p.selector].exact.value
  }

  /** What `_get_quote(annotation)` returns or raises: the trimmed first exact. */
  function QuoteOf(target: Option<seq<Target>>): (r: Result<string, QuoteError>)
    ensures r.Success? ==> r.value != [] && |r.value| <= MAX_TEXT_LENGTH
    ensures target.None? ==> r == Failure(MissingKey)
  {
    match target
    case None => Failure(MissingKey)
    case Some(ts) =>
      match FindExactFrom(ts, 0)
      case Success(p) => TrimIdempotent(ExactAt(ts, p)); Success(Trim(ExactAt(ts, p)))
      case Failure(e) => Failure(e)
  }

  /**
   * The first hit in scan order is unique: if selector `j` of target `i` has an
   * exact, every earlier target is exhausted and no earlier selector of
   * target `i` has one, then the search stops exactly there.
   */
  lemma {:induction false} FindExactFirstHit(ts: seq<Target>, from: nat, i: nat, j: nat)
    requires from <= i < |ts| && ts[i].selector.Some? && j < |ts[i].selector.value|
    requires HasExact(ts[i].selector.value[j])
    requires forall m :: 0 <= m < j ==> !HasExact(ts[i].selector.value[m])
    requires forall k :: from <= k < i ==> Exhausted(ts[k])
    ensures FindExactFrom(ts, from) == Success(Position(i, j))
    decreases i - from
  {
    if from < i {
      FindExactFirstHit(ts, from + 1, i, j);
    }
  }

  /**
   * `_get_quote`: the nested scan with its early return. Raising is a
   * `Failure`: KeyError as MissingKey, ValueError as NotFound.
   */
  method GetQuote(target: Option<seq<Target>>) returns (r: Result<string, QuoteError>)
    ensures r == QuoteOf(target)
  {
    if target.None? {
      return Failure(MissingKey);
    }
    var targets := target.value;
    for i := 0 to |targets|
      invariant forall k :: 0 <= k < i ==> Exhausted(targets[k])
    {
      if targets[i].selector.None? {
        return Failure(MissingKey);
      }
      var selectors := targets[i].selector.value;
      for j := 0 to |selectors|
        invariant forall m :: 0 <= m < j ==> !HasExact(selectors[m])
      {
        var exact := selectors[j].exact;
        if exact.Some? && exact.value != [] {
          FindExactFirstHit(targets, 0, i, j);
          return Success(Trim(exact.value));
        }
      }
    }
    return Failure(NotFound);
  }

  // ---------------------------------------------------------------- summary line

  /**
   * `user.split(":")[1].split("@")[0]`: the text after the first `:` up to
   * the next `:` or `@`. There is none when `user` has no `:` (IndexError).
   */
  function Username(user: string): (r: Option<string>)
    ensures r.Some? <==> ':' in user
    ensures r.Some? ==> ':' !in r.value && '@' !in r.value
  {
    var parts := Strings.Split(user, ':');
    Strings.SplitSeveral(user, ':');
    if |parts| < 2 then None
    else
      var name := Strings.Split(parts[1], '@')[0];
      Strings.SplitPiecesFree(user, ':');
      Strings.SplitPiecesFree(parts[1], '@');
      Strings.SplitPieceChars(parts[1], '@');
      Some(name)
  }

  /** For a user of the form `acct:<username>@<authority>` the username comes back out. */
  lemma UsernameOfAccount(scheme: string, name: string, authority: string)
    requires ':' !in scheme && ':' !in name && '@' !in name
    ensures Username(scheme + ":" + name + "@" + authority) == Some(name)
  {
    var rest := name + "@" + authority;
    assert scheme + ":" + name + "@" + authority == scheme + ([':'] + rest);
    Strings.SplitFreePrefix(scheme, [':'] + rest, ':');
    Strings.SplitLeadingSeparator(rest, ':');
    assert Strings.Split(scheme + ":" + name + "@" + authority, ':')[1] == Strings.Split(rest, ':')[0];
    var tail := Strings.Split(authority, ':');
    assert rest == (name + "@") + authority;
    Strings.SplitFreePrefix(name + "@", authority, ':');
    var piece := name + "@" + tail[0];
    assert Strings.Split(rest, ':')[0] == piece;
    assert piece == name + (['@'] + tail[0]);
    Strings.SplitFreePrefix(name, ['@'] + tail[0], '@');
    Strings.SplitLeadingSeparator(tail[0], '@');
    assert Strings.Split(piece, '@')[0] == name + [];
    assert name + [] == name;
    var user := scheme + ":" + name + "@" + authority;
    var parts := Strings.Split(user, ':');
    assert |parts| >= 2 && parts[1] == piece;
    assert Username(user) == Some(Strings.Split(parts[1], '@')[0]);
  }

  /** The first document title has some non-whitespace text. */
  predicate HasTitleText(a: Annotation)
  {
    a.title.Some? && a.title.value != [] && Whitespace.NonSpace(a.title.value[0]) != []
  }

  /**
   * `normalize_title(annotation["document"]["title"][0])` inside a `try`:
   * a missing document, title or first element gives no title.
   */
  function DocumentTitle(a: Annotation): Option<string>
  {
    if a.title.Some? && a.title.value != [] then Some(NormalizeTitle(a.title.value[0])) else None
  }

  /**
   * The document reference of the summary line: `<uri|title>` when the
   * normalized title is non-empty, the bare URI otherwise.
   */
  function DocumentLink(a: Annotation): string
  {
    var title := DocumentTitle(a);
    if title.Some? && title.value != [] then "<" + a.uri + "|" + title.value + ">" else a.uri
  }

  /** The bare URI stands for a document without title text; otherwise a Slack link labelled with the normalized title. */
  lemma DocumentLinkSpec(a: Annotation)
    ensures !HasTitleText(a) ==> DocumentLink(a) == a.uri
    ensures HasTitleText(a) ==>
      DocumentLink(a) == "<" + a.uri + "|" + NormalizeTitle(a.title.value[0]) + ">"
      && DocumentLink(a) != a.uri
  {
    if a.title.Some? && a.title.value != [] {
      NormalizeTitleSpec(a.title.value[0]);
    }
    if HasTitleText(a) {
      assert |DocumentLink(a)| > |a.uri|;
    }
  }

  /** The username in backticks, followed by the escaped display name in parentheses when there is one. */
  function FormattedUser(name: string, displayName: Option<string>): string
  {
    var username := Html.Escape(name);
    var shown := Html.Escape(if displayName.Some? then displayName.value else "");
    if shown != [] then "`" + username + "` (" + shown + ")" else "`" + username + "`"
  }

  /** `` in `group` `` for a non-empty group name, nothing otherwise. */
  function FormattedGroup(group: Option<string>): string
  {
    if group.Some? && group.value != [] then " in `" + group.value + "`" else ""
  }

  /** The summary line assembled from its formatted pieces. */
  function SummaryLine(user: string, link: string, group: string): string
  {
    user + " annotated " + link + group + ":"
  }

  /** The line opens with the formatted user, then " annotated ", the link, the group clause and a colon. */
  lemma SummaryLineParts(user: string, link: string, group: string)
    ensures var line := SummaryLine(user, link, group);
      line[..|user|] == user && line[|user|..] == " annotated " + link + group + ":"
      && line[|line| - 1] == ':'
      && (group == [] ==> line == user + " annotated " + link + ":")
  {
    var line := SummaryLine(user, link, group);
    assert line == user + (" annotated " + link + group + ":");
  }

  /**
   * `_build_annotation_summary`:
   * `` `username` (display_name) annotated <link> in `group`: ``.
   */
  function Summary(a: Annotation, group: Option<string>): (r: Result<string, FormatError>)
    ensures r.Failure? <==> ':' !in a.user
    ensures r.Failure? ==> r.error == MalformedUser(a.user)
  {
    match Username(a.user)
    case None => Failure(MalformedUser(a.user))
    case Some(name) => Success(SummaryLine(FormattedUser(name, a.displayName), DocumentLink(a), FormattedGroup(group)))
  }

  /** The username in backticks, the part of the summary that always leads. */
  function UserCode(a: Annotation): string
    requires ':' in a.user
  {
    "`" + Html.Escape(Username(a.user).value) + "`"
  }

  /** A summary opens with the username in backticks and closes with a colon. */
  lemma SummaryShape(a: Annotation, group: Option<string>)
    requires ':' in a.user
    ensures var s := Summary(a, group).value;
      UserCode(a) <= s && s[|s| - 1] == ':'
  {
    var user := FormattedUser(Username(a.user).value, a.displayName);
    var link, grp := DocumentLink(a), FormattedGroup(group);
    SummaryLineParts(user, link, grp);
    assert UserCode(a) <= user;
  }

  /** A display name adds ` (escaped name)` after the username; an empty one adds nothing. */
  lemma DisplayNameInsert(name: string, d: string)
    ensures FormattedUser(name, Some([])) == FormattedUser(name, None)
    ensures d != [] ==> FormattedUser(name, Some(d)) == FormattedUser(name, None) + " (" + Html.Escape(d) + ")"
  {
    if d != [] {
      Html.EscapeSpec(d);
    }
  }

  /**
   * The display name only inserts ` (display name)` right after the
   * username; a missing and an empty display name read the same.
   */
  lemma SummaryDisplayName(a: Annotation, group: Option<string>, d: string)
    requires ':' in a.user
    ensures Summary(a.(displayName := Some([])), group) == Summary(a.(displayName := None), group)
    ensures d != [] ==>
      var bare := Summary(a.(displayName := None), group).value;
      var head := |UserCode(a)|;
      Summary(a.(displayName := Some(d)), group).value == bare[..head] + " (" + Html.Escape(d) + ")" + bare[head..]
  {
    var name := Username(a.user).value;
    var link, grp := DocumentLink(a), FormattedGroup(group);
    DisplayNameInsert(name, d);
    var head := FormattedUser(name, None);
    assert head == UserCode(a);
    var none, empty, named := a.(displayName := None), a.(displayName := Some([])), a.(displayName := Some(d));
    assert DocumentLink(none) == link && DocumentLink(empty) == link && DocumentLink(named) == link;
    assert Summary(none, group) == Success(SummaryLine(head, link, grp));
    assert Summary(empty, group) == Success(SummaryLine(head, link, grp));
    if d != [] {
      var user := head + " (" + Html.Escape(d) + ")";
      assert Summary(named, group) == Success(SummaryLine(user, link, grp));
      SummaryLineParts(head, link, grp);
      SummaryLineParts(user, link, grp);
      var line := SummaryLine(user, link, grp);
      assert line == line[..|user|] + line[|user|..];
    }
  }

  /** A group name only inserts `` in `group` `` before the closing colon; an empty one adds nothing. */
  lemma SummaryGroup(a: Annotation, g: string)
    requires ':' in a.user
    ensures Summary(a, Some([])) == Summary(a, None)
    ensures g != [] ==>
      var bare := Summary(a, None).value;
      Summary(a, Some(g)).value == bare[..|bare| - 1] + " in `" + g + "`:"
  {
    var user := FormattedUser(Username(a.user).value, a.displayName);
    var link := DocumentLink(a);
    assert FormattedGroup(None) == [] && FormattedGroup(Some([])) == [];
    if g != [] {
      var lead := user + " annotated " + link;
      var bare := SummaryLine(user, link, []);
      assert bare == lead + ":";
      assert bare[..|bare| - 1] == lead;
      assert SummaryLine(user, link, " in `" + g + "`") == lead + " in `" + g + "`:";
    }
  }

  /**
   * The whole summary line for a user `scheme:name@authority` with no display
   * name and no group: the escaped name in backticks, " annotated ", the
   * document link and a colon.
   */
  lemma SummaryOfAccount(a: Annotation, scheme: string, name: string, authority: string)
    requires a.user == scheme + ":" + name + "@" + authority
    requires ':' !in scheme && ':' !in name && '@' !in name
    requires a.displayName.None? || a.displayName == Some([])
    ensures Summary(a, None) == Success("`" + Html.Escape(name) + "`" + " annotated " + DocumentLink(a) + ":")
  {
    UsernameOfAccount(scheme, name, authority);
    assert ':' in a.user by {
      assert a.user[|scheme|] == ':';
    }
    var e := Html.Escape(name);
    assert Html.Escape([]) == [];
    assert FormattedUser(name, a.displayName) == "`" + e + "`";
    assert FormattedGroup(None) == [];
    var link := DocumentLink(a);
    SummaryLineParts("`" + e + "`", link, []);
  }

  // ---------------------------------------------------------------- fields

  /** The three kinds of annotation, in the order they are tested. */
  datatype Kind = Quoted(quote: string) | Reply | PageNote

  /** `try: quote = _get_quote(annotation) except Exception: pass`. */
  function QuoteOrNone(a: Annotation): (r: Option<string>)
    ensures r.Some? <==> QuoteOf(a.target).Success?
    ensures r.Some? ==> r.value == QuoteOf(a.target).value
  {
    match QuoteOf(a.target)
    case Success(q) => Some(q)
    case Failure(_) => None
  }

  /**
   * The branch `_build_annotation_fields` takes: a quote wins whatever
   * `references` holds; then a non-empty `references` makes a reply; anything
   * else is a page note.
   */
  function Classify(a: Annotation): (k: Kind)
    ensures k.Quoted? <==> QuoteOf(a.target).Success?
    ensures k.Quoted? ==> k.quote == QuoteOf(a.target).value
    ensures k == Reply <==> QuoteOf(a.target).Failure? && a.references.Some? && a.references.value != []
    ensures k == PageNote <==> QuoteOf(a.target).Failure? && (a.references.None? || a.references.value == [])
  {
    var quote := QuoteOrNone(a);
    if quote.Some? && quote.value != [] then Quoted(quote.value)
    else if a.references.Some? && a.references.value != [] then Reply
    else PageNote
  }

  /** A mrkdwn label followed by the in-context link. */
  function LinkLabel(caption: string, link: string): string
  {
    caption + " (<" + link + "|in-context link>):"
  }

  /**
   * The field list `_build_annotation_fields` returns: the labels for the
   * annotation's kind, then the annotation text.
   */
  function Fields(a: Annotation): (fs: seq<TextObject>)
    ensures |fs| == if Classify(a).Quoted? then 4 else 2
    ensures fs[|fs| - 1] == TextObject(PlainText, GetText(a))
  {
    var lead := match Classify(a)
      case Quoted(q) => [
        TextObject(Mrkdwn, "*Quote:*"),
        TextObject(Mrkdwn, LinkLabel("*Annotation*", a.incontext)),
        TextObject(PlainText, q)]
      case Reply => [TextObject(Mrkdwn, LinkLabel("*Reply*", a.incontext))]
      case PageNote => [TextObject(Mrkdwn, LinkLabel("*Page Note*", a.incontext))];
    lead + [TextObject(PlainText, GetText(a))]
  }

  /**
   * With a quote present, `references` is not looked at: the fields are
   * "*Quote:*", the annotation label and the quote, whatever `references` is.
   */
  lemma QuoteBeatsReply(a: Annotation, refs: Option<seq<string>>)
    requires QuoteOf(a.target).Success?
    ensures Fields(a.(references := refs)) == Fields(a)
    ensures Fields(a)[0] == TextObject(Mrkdwn, "*Quote:*")
    ensures Fields(a)[2] == TextObject(PlainText, QuoteOf(a.target).value)
  {
  }

  /**
   * The labels each kind gets: "*Quote:*", the "*Annotation*" link label and
   * the quote; the "*Reply*" link label; or the "*Page Note*" link label.
   * The in-context link always sits inside a `<link|in-context link>` Slack link.
   */
  lemma FieldsByKind(a: Annotation)
    ensures QuoteOf(a.target).Success? ==>
      Fields(a)[..3] == [
        TextObject(Mrkdwn, "*Quote:*"),
        TextObject(Mrkdwn, "*Annotation* (<" + a.incontext + "|in-context link>):"),
        TextObject(PlainText, QuoteOf(a.target).value)]
    ensures QuoteOf(a.target).Failure? && a.references.Some? && a.references.value != [] ==>
      Fields(a)[0] == TextObject(Mrkdwn, "*Reply* (<" + a.incontext + "|in-context link>):")
    ensures QuoteOf(a.target).Failure? && (a.references.None? || a.references.value == []) ==>
      Fields(a)[0] == TextObject(Mrkdwn, "*Page Note* (<" + a.incontext + "|in-context link>):")
  {
    assert LinkLabel("*Annotation*", a.incontext) == "*Annotation* (<" + a.incontext + "|in-context link>):";
    assert LinkLabel("*Reply*", a.incontext) == "*Reply* (<" + a.incontext + "|in-context link>):";
    assert LinkLabel("*Page Note*", a.incontext) == "*Page Note* (<" + a.incontext + "|in-context link>):";
  }

  /**
   * `_build_annotation_fields`: the quote is looked up with its failure
   * swallowed, one of three lists is built, and the text field is appended.
   */
  method BuildFields(a: Annotation) returns (fields: seq<TextObject>)
    ensures fields == Fields(a)
  {
    var quote: Option<string> := None;
    var found := GetQuote(a.target);
    if found.Success? {
      quote := Some(found.value);
    }
    var link := a.incontext;
    if quote.Some? && quote.value != [] {
      fields := [
        TextObject(Mrkdwn, "*Quote:*"),
        TextObject(Mrkdwn, LinkLabel("*Annotation*", link)),
        TextObject(PlainText, quote.value)];
    } else if a.references.Some? && a.references.value != [] {
      fields := [TextObject(Mrkdwn, LinkLabel("*Reply*", link))];
    } else {
      fields := [TextObject(Mrkdwn, LinkLabel("*Page Note*", link))];
    }
    fields := fields + [TextObject(PlainText, GetText(a))];
  }

  // ---------------------------------------------------------------- message

  /** `_format_annotation`: a section with the summary as mrkdwn text and the fields. */
  function FormatAnnotation(a: Annotation, group: Option<string>): (r: Result<Block, FormatError>)
    ensures r.Failure? <==> ':' !in a.user
    ensures r.Failure? ==> r.error == MalformedUser(a.user)
  {
    match Summary(a, group)
    case Failure(e) => Failure(e)
    case Success(summary) => Success(Section(TextObject(Mrkdwn, summary), Fields(a)))
  }

  /**
   * A well-formed user gives a section whose mrkdwn text is the summary and
   * whose fields are the built fields: the text opens with the username in
   * backticks and ends with a colon, and the fields end with the annotation
   * text, two of them, or four when there is a quote.
   */
  lemma SectionShape(a: Annotation, group: Option<string>)
    requires ':' in a.user
    ensures var b := FormatAnnotation(a, group).value;
      b.Section? && b.text.kind == Mrkdwn
      && UserCode(a) <= b.text.text && b.text.text[|b.text.text| - 1] == ':'
      && |b.fields| == (if QuoteOf(a.target).Success? then 4 else 2)
      && b.fields[|b.fields| - 1] == TextObject(PlainText, GetText(a))
      && b.text == TextObject(Mrkdwn, Summary(a, group).value) && b.fields == Fields(a)
  {
    SummaryShape(a, group);
  }

  /** The message's `text`: a fixed sentence for one annotation, "<n> new annotations" otherwise. */
  function CountText(n: nat): string
  {
    if n > 1 then Strings.NatToString(n) + " new annotations" else "A new annotation was posted"
  }

  /** For more than one annotation the text opens with the decimal count, which reads back as `n`. */
  lemma CountTextReadsBack(n: nat)
    ensures n <= 1 ==> CountText(n) == "A new annotation was posted"
    ensures n > 1 ==>
      exists numeral :: CountText(n) == numeral + " new annotations"
        && Strings.IsDigits(numeral) && numeral[0] != '0' && Strings.ParseDecimal(numeral) == n
  {
    if n > 1 {
      Strings.NatToStringRoundTrip(n);
      var numeral := Strings.NatToString(n);
      assert numeral[0] != '0' by {
        if |numeral| == 1 {
          assert numeral == [Strings.DigitChar(n)] && n < 10;
          assert Strings.ParseDecimal(numeral) == (numeral[0] - '0') as nat by {
            assert numeral[..0] == [];
          }
        }
      }
    }
  }

  /** `_format_annotation` applied to every annotation, in order. */
  function Sections(xs: seq<Annotation>, group: Option<string>): (r: seq<Result<Block, FormatError>>)
    ensures |r| == |xs|
    decreases |xs|
  {
    if xs == [] then [] else Sections(xs[..|xs| - 1], group) + [FormatAnnotation(xs[|xs| - 1], group)]
  }

  /** Section `k` is annotation `k` formatted. */
  lemma {:induction false} SectionsAt(xs: seq<Annotation>, group: Option<string>, k: nat)
    requires k < |xs|
    ensures Sections(xs, group)[k] == FormatAnnotation(xs[k], group)
    decreases |xs|
  {
    var init := xs[..|xs| - 1];
    assert Sections(xs, group) == Sections(init, group) + [FormatAnnotation(xs[|xs| - 1], group)];
    if k < |xs| - 1 {
      assert init[k] == xs[k];
      SectionsAt(init, group, k);
    }
  }

  /**
   * The blocks `format_annotations`'s loop has built after `i` rounds: each
   * section followed by a divider, or the error of the first section that
   * could not be built.
   */
  function Interleave(sections: seq<Result<Block, FormatError>>, i: nat): Result<seq<Block>, FormatError>
    requires i <= |sections|
    decreases i
  {
    if i == 0 then Success([])
    else match Interleave(sections, i - 1)
      case Failure(e) => Failure(e)
      case Success(blocks) =>
        match sections[i - 1]
        case Failure(e) => Failure(e)
        case Success(section) => Success(blocks + [section, Divider])
  }

  /**
   * The payload for the sections built: `{}` for none, otherwise the count
   * text and the interleaved blocks closed by the attribution block.
   */
  function Assemble(sections: seq<Result<Block, FormatError>>): Result<Payload, FormatError>
  {
    if sections == [] then Success(Empty)
    else match Interleave(sections, |sections|)
      case Failure(e) => Failure(e)
      case Success(blocks) => Success(Message(CountText(|sections|), blocks + [CONTEXT_BLOCK]))
  }

  /** The payload `format_annotations` returns. */
  function Digest(xs: seq<Annotation>, group: Option<string>): Result<Payload, FormatError>
  {
    Assemble(Sections(xs, group))
  }

  /** Once a section fails, interleaving more of them keeps that failure. */
  lemma {:induction false} InterleaveFailureSticks(sections: seq<Result<Block, FormatError>>, i: nat, j: nat)
    requires i <= j <= |sections| && Interleave(sections, i).Failure?
    ensures Interleave(sections, j) == Interleave(sections, i)
    decreases j - i
  {
    if i < j {
      InterleaveFailureSticks(sections, i, j - 1);
    }
  }

  /** Interleaving succeeds exactly when every section so far was built. */
  lemma {:induction false} InterleaveSucceeds(sections: seq<Result<Block, FormatError>>, i: nat)
    requires i <= |sections|
    ensures Interleave(sections, i).Success? <==> forall k :: 0 <= k < i ==> sections[k].Success?
    decreases i
  {
    if i > 0 {
      InterleaveSucceeds(sections, i - 1);
    }
  }

  /** A failed interleaving carries the error of the first failed section. */
  lemma {:induction false} InterleaveFailsAtFirst(sections: seq<Result<Block, FormatError>>, i: nat)
    requires i <= |sections| && Interleave(sections, i).Failure?
    ensures exists k :: 0 <= k < i && sections[k].Failure?
                        && (forall m :: 0 <= m < k ==> sections[m].Success?)
                        && Interleave(sections, i).error == sections[k].error
    decreases i
  {
    if Interleave(sections, i - 1).Failure? {
      InterleaveFailsAtFirst(sections, i - 1);
    } else {
      InterleaveSucceeds(sections, i - 1);
    }
  }

  /** A successful interleaving holds 2·i blocks: section `k` at `2·k`, a divider right after it. */
  lemma {:induction false} InterleaveBlocks(sections: seq<Result<Block, FormatError>>, i: nat)
    requires i <= |sections| && Interleave(sections, i).Success?
    ensures var blocks := Interleave(sections, i).value;
      |blocks| == 2 * i
      && forall k :: 0 <= k < i ==>
           sections[k].Success? && blocks[2 * k] == sections[k].value && blocks[2 * k + 1] == Divider
    decreases i
  {
    if i > 0 {
      InterleaveBlocks(sections, i - 1);
      var prev := Interleave(sections, i - 1).value;
      var blocks := prev + [sections[i - 1].value, Divider];
      assert Interleave(sections, i) == Success(blocks);
      forall k | 0 <= k < i
        ensures sections[k].Success? && blocks[2 * k] == sections[k].value && blocks[2 * k + 1] == Divider
      {
        if k < i - 1 {
          assert blocks[2 * k] == prev[2 * k] && blocks[2 * k + 1] == prev[2 * k + 1];
        }
      }
    }
  }

  /**
   * The layout of an assembled payload: nothing for no sections; the error
   * of the first section that failed; or the count text, each section
   * followed by a divider, and the attribution block last.
   */
  lemma AssembleLayout(sections: seq<Result<Block, FormatError>>)
    ensures sections == [] ==> Assemble(sections) == Success(Empty)
    ensures Assemble(sections).Failure? <==> exists i :: 0 <= i < |sections| && sections[i].Failure?
    ensures Assemble(sections).Failure? ==>
      exists i :: 0 <= i < |sections| && sections[i].Failure?
        && (forall k :: 0 <= k < i ==> sections[k].Success?)
        && Assemble(sections).error == sections[i].error
    ensures Assemble(sections).Success? && sections != [] ==>
      var n, payload := |sections|, Assemble(sections).value;
      payload.Message? && payload.text == CountText(n)
      && |payload.blocks| == 2 * n + 1
      && (forall i :: 0 <= i < n ==>
            sections[i].Success? && payload.blocks[2 * i] == sections[i].value
            && payload.blocks[2 * i + 1] == Divider)
      && payload.blocks[2 * n] == CONTEXT_BLOCK
  {
    var n := |sections|;
    InterleaveSucceeds(sections, n);
    if sections != [] && Interleave(sections, n).Failure? {
      InterleaveFailsAtFirst(sections, n);
    }
    if sections != [] && Interleave(sections, n).Success? {
      InterleaveBlocks(sections, n);
      var blocks := Interleave(sections, n).value;
      var all := blocks + [CONTEXT_BLOCK];
      forall i | 0 <= i < n
        ensures all[2 * i] == blocks[2 * i] && all[2 * i + 1] == blocks[2 * i + 1]
      {
      }
    }
  }

  /**
   * What `format_annotations` promises: nothing for no annotations; the count
   * text, each annotation's section followed by a divider in input order and
   * the attribution block last; or the error of the first malformed user.
   */
  lemma DigestLayout(xs: seq<Annotation>, group: Option<string>)
    ensures xs == [] ==> Digest(xs, group) == Success(Empty)
    ensures Digest(xs, group).Failure? <==> exists i :: 0 <= i < |xs| && ':' !in xs[i].user
    ensures Digest(xs, group).Failure? ==>
      exists i :: 0 <= i < |xs| && ':' !in xs[i].user
        && (forall k :: 0 <= k < i ==> ':' in xs[k].user)
        && Digest(xs, group).error == MalformedUser(xs[i].user)
    ensures Digest(xs, group).Success? && xs != [] ==>
      var n, payload := |xs|, Digest(xs, group).value;
      payload.Message? && payload.text == CountText(n)
      && |payload.blocks| == 2 * n + 1
      && (forall i :: 0 <= i < n ==>
            payload.blocks[2 * i] == FormatAnnotation(xs[i], group).value
            && payload.blocks[2 * i + 1] == Divider)
      && payload.blocks[2 * n] == CONTEXT_BLOCK
  {
    var sections := Sections(xs, group);
    AssembleLayout(sections);
    forall i | 0 <= i < |xs|
      ensures sections[i] == FormatAnnotation(xs[i], group)
    {
      SectionsAt(xs, group, i);
    }
  }

  /**
   * One round of `format_annotations`'s loop: append annotation `i`'s
   * section and a divider, or stop with its error.
   */
  method AppendSection(xs: seq<Annotation>, group: Option<string>, i: nat, blocks: seq<Block>)
    returns (r: Result<seq<Block>, FormatError>)
    requires i < |xs| && Interleave(Sections(xs, group), i) == Success(blocks)
    ensures r == Interleave(Sections(xs, group), i + 1)
  {
    var section := FormatAnnotation(xs[i], group);
    SectionsAt(xs, group, i);
    if section.Failure? {
      return Failure(section.error);
    }
    return Success(blocks + [section.value, Divider]);
  }

  /** A section that cannot be built is the error of the whole payload. */
  lemma AssembleFailsAt(sections: seq<Result<Block, FormatError>>, i: nat)
    requires i < |sections| && Interleave(sections, i + 1).Failure?
    ensures Assemble(sections) == Failure(Interleave(sections, i + 1).error)
  {
    InterleaveFailureSticks(sections, i + 1, |sections|);
  }

  /**
   * `format_annotations`: `{}` for no annotations, otherwise the count text
   * and the blocks built by appending each section and a divider, then the
   * attribution block. A malformed `user` aborts the loop.
   */
  method FormatAnnotations(annotations: seq<Annotation>, group: Option<string>)
    returns (r: Result<Payload, FormatError>)
    ensures r == Digest(annotations, group)
  {
    if annotations == [] {
      return Success(Empty);
    }
    var n := |annotations|;
    var blocks: seq<Block> := [];
    for i := 0 to n
      invariant Interleave(Sections(annotations, group), i) == Success(blocks)
    {
      var next := AppendSection(annotations, group, i, blocks);
      if next.Failure? {
        AssembleFailsAt(Sections(annotations, group), i);
        return Failure(next.error);
      }
      blocks := next.value;
    }
    assert Sections(annotations, group) != [];
    blocks := blocks + [CONTEXT_BLOCK];
    return Success(Message(CountText(n), blocks));
  }
}
