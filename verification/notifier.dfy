/**
 The decision and formatting logic of `TelegramNotifier`: the two word
 checks, the notification precedence of `should_notify`, the message built
 by `format_message`, and the decision part of `notify_if_needed`. The Bot
 API, the event loop and the delivery itself are outside the model.
 */
module Notifier {
  import opened Text
  import opened Options
  import WordLists

  /** The category whose items are always announced unless a stopword vetoes them. */
  const AlwaysNotifyCategory: int := 5

  /** Descriptions longer than this are cut. */
  const MaxDescriptionLength: nat := 300

  /** Appended to a cut description. */
  const Ellipsis: string := "..."

  /** A notifier's word lists, loaded once when it is constructed. */
  datatype Policy = Policy(keywords: set<string>, stopwords: set<string>)

  /** Both lists hold only normalised entries, as the loaders produce them. */
  predicate WellFormed(p: Policy) {
    (forall w :: w in p.keywords ==> WordLists.IsEntry(w))
    && (forall w :: w in p.stopwords ==> WordLists.IsEntry(w))
  }

  /** `TelegramNotifier.__init__`, without the Bot: load the keyword and stopword lists. */
  function NewPolicy(keywordFile: WordLists.ListFile, stopwordFile: WordLists.ListFile): (p: Policy)
    ensures WellFormed(p)
    ensures "" !in p.keywords && "" !in p.stopwords
  {
    Policy(WordLists.LoadKeywords(keywordFile), WordLists.LoadStopwords(stopwordFile))
  }

  // ---------------------------------------------------------------------------
  // Word checks and the notification precedence
  // ---------------------------------------------------------------------------

  /**
   Reference meaning of a word check: the text is non-empty and some word of
   the list is a substring of the lower-cased text.
   */
  ghost predicate Mentions(words: set<string>, text: string) {
    |text| > 0 && exists w :: w in words && IsSubstring(w, Lower(text))
  }

  /**
   The shared logic of `check_keywords_in_text` and `check_stopwords_in_text`:
   false at once for an empty text or an empty list, otherwise whether some
   word occurs in the lower-cased text.
   */
  predicate MentionsAny(words: set<string>, text: string): (b: bool)
    ensures b <==> Mentions(words, text)
    ensures |words| == 0 ==> !b
    ensures |text| == 0 ==> !b
  {
    if |text| == 0 || |words| == 0 then false
    else
      var lowered := Lower(text);
      exists w :: w in words && Contains(lowered, w)
  }

  /** `check_keywords_in_text`: some keyword occurs in the lower-cased, non-empty text. */
  predicate CheckKeywordsInText(p: Policy, text: string): (b: bool)
    ensures b <==> |text| > 0 && exists w :: w in p.keywords && IsSubstring(w, Lower(text))
  {
    MentionsAny(p.keywords, text)
  }

  /** `check_stopwords_in_text`: some stopword occurs in the lower-cased, non-empty text. */
  predicate CheckStopwordsInText(p: Policy, text: string): (b: bool)
    ensures b <==> |text| > 0 && exists w :: w in p.stopwords && IsSubstring(w, Lower(text))
  {
    MentionsAny(p.stopwords, text)
  }

  /** A stopword occurs in the title or in the description. */
  ghost predicate Vetoed(p: Policy, title: string, description: string) {
    Mentions(p.stopwords, title) || Mentions(p.stopwords, description)
  }

  /** A keyword occurs in the title or in the description. */
  ghost predicate KeywordHit(p: Policy, title: string, description: string) {
    Mentions(p.keywords, title) || Mentions(p.keywords, description)
  }

  /**
   `should_notify`: a stopword vetoes first, for every category; otherwise
   the always-notify category passes; otherwise a keyword must occur.
   */
  predicate ShouldNotify(p: Policy, title: string, description: string, category: int): (b: bool)
    ensures Vetoed(p, title, description) ==> !b
    ensures !Vetoed(p, title, description) && category == AlwaysNotifyCategory ==> b
    ensures !Vetoed(p, title, description) && category != AlwaysNotifyCategory
      ==> (b <==> KeywordHit(p, title, description))
  {
    if CheckStopwordsInText(p, title) || CheckStopwordsInText(p, description) then false
    else if category == AlwaysNotifyCategory then true
    else CheckKeywordsInText(p, title) || CheckKeywordsInText(p, description)
  }

  /** With no stopwords nothing is ever vetoed. */
  lemma EmptyStopwordsNeverVeto(p: Policy, title: string, description: string, category: int)
    requires p.stopwords == {}
    ensures ShouldNotify(p, title, description, category)
      <==> category == AlwaysNotifyCategory || KeywordHit(p, title, description)
  {
  }

  /** With no keywords only the category override can fire. */
  lemma EmptyKeywordsOnlyOverride(p: Policy, title: string, description: string, category: int)
    requires p.keywords == {}
    ensures ShouldNotify(p, title, description, category)
      <==> category == AlwaysNotifyCategory && !Vetoed(p, title, description)
  {
  }

  /**
   For loaded lists, which hold no empty word, the emptiness guard of the
   word checks is immaterial: the veto is exactly "some stopword occurs in
   the lower-cased title or the lower-cased description".
   */
  lemma WellFormedVeto(p: Policy, title: string, description: string)
    requires WellFormed(p)
    ensures Vetoed(p, title, description)
      <==> exists w :: w in p.stopwords && (IsSubstring(w, Lower(title)) || IsSubstring(w, Lower(description)))
  {
    forall w | w in p.stopwords
      ensures IsSubstring(w, Lower(title)) ==> |title| > 0
      ensures IsSubstring(w, Lower(description)) ==> |description| > 0
    {
      if |title| == 0 { NoWordInEmpty(w); }
      if |description| == 0 { NoWordInEmpty(w); }
    }
  }

  /** A word whose first character appears at no possible start position of `t` is not in `t`. */
  lemma AbsentFirstChar(w: string, t: string)
    requires |w| > 0
    requires forall i :: 0 <= i <= |t| - |w| ==> t[i] != w[0]
    ensures !IsSubstring(w, t)
  {
    if i :| OccursAt(w, t, i) {
      assert t[i..i + |w|][0] == w[0];
    }
  }

  /** The example policy: stopwords {"spam"}, keywords {"urgent"}. */
  function ExamplePolicy(): Policy {
    Policy({"urgent"}, {"spam"})
  }

  /** A stopword beats a keyword: "urgent spam job" in category 1 is not announced. */
  lemma StopwordBeatsKeywordExample()
    ensures !ShouldNotify(ExamplePolicy(), "urgent spam job", "", 1)
  {
    assert Lower("urgent spam job") == "urgent spam job";
    assert OccursAt("spam", "urgent spam job", 7);
  }

  /** Category 5 is announced without a keyword. */
  lemma CategoryOverrideExample()
    ensures ShouldNotify(ExamplePolicy(), "routine task", "", 5)
  {
    assert Lower("routine task") == "routine task";
    AbsentFirstChar("spam", "routine task");
  }

  /** Elsewhere a keyword suffices: "urgent fix" in category 2 is announced. */
  lemma KeywordExample()
    ensures ShouldNotify(ExamplePolicy(), "urgent fix", "", 2)
  {
    assert Lower("urgent fix") == "urgent fix";
    AbsentFirstChar("spam", "urgent fix");
    assert OccursAt("urgent", "urgent fix", 0);
  }

  /** Matching ignores case: "URGENT fix" in category 2 is announced under the keyword "urgent". */
  lemma UpperCaseKeywordExample()
    ensures ShouldNotify(ExamplePolicy(), "URGENT fix", "", 2)
  {
    var t := "URGENT fix";
    assert Lower(t) == "urgent fix" by {
      forall i | 0 <= i < |t| ensures Lower(t)[i] == "urgent fix"[i] {
        assert Lower(t)[i] == LowerChar(t[i]);
      }
    }
    AbsentFirstChar("spam", "urgent fix");
    assert OccursAt("urgent", "urgent fix", 0);
  }

  /** Without stopword, keyword or override nothing is announced. */
  lemma NoMatchExample()
    ensures !ShouldNotify(ExamplePolicy(), "routine", "", 2)
  {
    assert Lower("routine") == "routine";
    AbsentFirstChar("spam", "routine");
    AbsentFirstChar("urgent", "routine");
  }

  // ---------------------------------------------------------------------------
  // The message
  // ---------------------------------------------------------------------------

  /**
   The description as it appears in the message: one longer than 300
   characters is cut to its first 300 followed by "...", any other is kept.
   */
  function TruncateDescription(description: string): (r: string)
    ensures |r| <= MaxDescriptionLength + |Ellipsis|
    ensures |description| <= MaxDescriptionLength ==> r == description
    ensures |description| > MaxDescriptionLength
      ==> (&& |r| == MaxDescriptionLength + |Ellipsis|
           && r[..MaxDescriptionLength] == description[..MaxDescriptionLength]
           && r[MaxDescriptionLength..] == Ellipsis)
    ensures |r| == 0 <==> |description| == 0
  {
    if |description| > MaxDescriptionLength then description[..MaxDescriptionLength] + Ellipsis
    else description
  }

  const HeaderLine: string := "🆕 <b>Новый проект FL.ru</b>\n\n"
  const TitleLabel: string := "📝 <b>Заголовок:</b> "
  const DescriptionLabel: string := "📄 <b>Описание:</b> "
  const CategoryLabel: string := "🏷 <b>Категория:</b> "
  const DateLabel: string := "📅 <b>Дата публикации:</b> "
  const LinkLabel: string := "🔗 <b>Ссылка:</b> "

  /** One block of a notification message. */
  datatype Field =
    | Header
    | TitleField(title: string)
    | DescriptionField(description: string)
    | CategoryField(category: int)
    | DateField(pubDate: string)
    | LinkField(link: string)

  /** The position of a block kind in the fixed field order. */
  function Rank(f: Field): nat {
    match f
    case Header => 0
    case TitleField(_) => 1
    case DescriptionField(_) => 2
    case CategoryField(_) => 3
    case DateField(_) => 4
    case LinkField(_) => 5
  }

  /** The text of one block. */
  function Render(f: Field): string {
    match f
    case Header => HeaderLine
    case TitleField(t) => TitleLabel + t + "\n\n"
    case DescriptionField(d) => DescriptionLabel + d + "\n\n"
    case CategoryField(c) => CategoryLabel + Decimal(c) + "\n"
    case DateField(d) => DateLabel + d + "\n"
    case LinkField(l) => LinkLabel + l
  }

  /** The text of each block, in order. */
  function Texts(fs: seq<Field>): (r: seq<string>)
    ensures |r| == |fs|
    ensures forall i :: 0 <= i < |fs| ==> r[i] == Render(fs[i])
  {
    seq(|fs|, i requires 0 <= i < |fs| => Render(fs[i]))
  }

  /** The blocks rendered and concatenated in order. */
  function RenderAll(fs: seq<Field>): string {
    Concat(Texts(fs))
  }

  /** Some block of `fs` has the given rank. */
  predicate HasKind(fs: seq<Field>, rank: nat) {
    exists i :: 0 <= i < |fs| && Rank(fs[i]) == rank
  }

  /** The blocks of `fs` appear in strictly increasing rank, so each kind at most once. */
  predicate InFieldOrder(fs: seq<Field>) {
    forall i, j :: 0 <= i < j < |fs| ==> Rank(fs[i]) < Rank(fs[j])
  }

  /** The description block, present only for a non-empty description. */
  function DescriptionBlock(d: string): (fs: seq<Field>)
    ensures HasKind(fs, 2) <==> |d| > 0
    ensures forall i :: 0 <= i < |fs| ==> fs[i] == DescriptionField(d)
  {
    if |d| > 0 then
      var fs := [DescriptionField(d)];
      assert Rank(fs[0]) == 2;
      fs
    else []
  }

  /** The publication-date block, present only for a non-empty date. */
  function DateBlock(pubDate: string): (fs: seq<Field>)
    ensures HasKind(fs, 4) <==> |pubDate| > 0
    ensures forall i :: 0 <= i < |fs| ==> fs[i] == DateField(pubDate)
  {
    if |pubDate| > 0 then
      var fs := [DateField(pubDate)];
      assert Rank(fs[0]) == 4;
      fs
    else []
  }

  /**
   The blocks of `format_message`: header and title first, the (cut)
   description only when non-empty, the category always, the publication
   date only when non-empty, the link last; each kind at most once, in the
   fixed order.
   */
  function Layout(title: string, description: string, link: string, pubDate: string, category: int): (fs: seq<Field>)
    ensures 4 <= |fs| <= 6
    ensures fs[0] == Header && fs[1] == TitleField(title)
    ensures fs[|fs| - 1] == LinkField(link)
    ensures InFieldOrder(fs)
    ensures HasKind(fs, 2) <==> |description| > 0
    ensures forall i :: (0 <= i < |fs| && fs[i].DescriptionField?
      ==> fs[i].description == TruncateDescription(description))
    ensures CategoryField(category) in fs
    ensures HasKind(fs, 4) <==> |pubDate| > 0
    ensures forall i :: 0 <= i < |fs| && fs[i].DateField? ==> fs[i].pubDate == pubDate
    ensures |description| > 0 ==> DescriptionField(TruncateDescription(description)) in fs
    ensures |pubDate| > 0 ==> DateField(pubDate) in fs
  {
    var d := TruncateDescription(description);
    var ds := DescriptionBlock(d);
    var ps := DateBlock(pubDate);
    var fs := [Header, TitleField(title)] + ds + [CategoryField(category)] + ps + [LinkField(link)];
    LayoutParts(title, ds, category, ps, link);
    fs
  }

  /** The facts about the assembled blocks, from the facts about the optional parts. */
  lemma LayoutParts(title: string, ds: seq<Field>, category: int, ps: seq<Field>, link: string)
    requires |ds| <= 1 && forall i :: 0 <= i < |ds| ==> ds[i].DescriptionField?
    requires |ps| <= 1 && forall i :: 0 <= i < |ps| ==> ps[i].DateField?
    ensures var fs := [Header, TitleField(title)] + ds + [CategoryField(category)] + ps + [LinkField(link)];
      && InFieldOrder(fs)
      && (HasKind(fs, 2) <==> HasKind(ds, 2))
      && (HasKind(fs, 4) <==> HasKind(ps, 4))
      && (forall i :: 0 <= i < |fs| && fs[i].DescriptionField? ==> fs[i] in ds)
      && (forall i :: 0 <= i < |fs| && fs[i].DateField? ==> fs[i] in ps)
      && CategoryField(category) in fs
  {
    var fs := [Header, TitleField(title)] + ds + [CategoryField(category)] + ps + [LinkField(link)];
    var n := |ds|;
    assert forall i :: 0 <= i < |fs| ==> Rank(fs[i]) == PartRank(i, n, |ps|) by {
      forall i | 0 <= i < |fs| ensures Rank(fs[i]) == PartRank(i, n, |ps|) {
        if i == 0 { } else if i == 1 { }
        else if i < 2 + n { assert fs[i] == ds[i - 2]; }
        else if i == 2 + n { assert fs[i] == CategoryField(category); }
        else if i < 3 + n + |ps| { assert fs[i] == ps[i - 3 - n]; }
        else { assert fs[i] == LinkField(link); }
      }
    }
    assert fs[2 + n] == CategoryField(category);
    if n > 0 { assert fs[2] == ds[0]; }
    if |ps| > 0 { assert fs[3 + n] == ps[0]; }
    forall i | 0 <= i < |fs| && fs[i].DescriptionField? ensures fs[i] in ds {
      assert 2 <= i < 2 + n;
      assert fs[i] == ds[i - 2];
    }
    forall i | 0 <= i < |fs| && fs[i].DateField? ensures fs[i] in ps {
      assert 3 + n <= i < 3 + n + |ps|;
      assert fs[i] == ps[i - 3 - n];
    }
  }

  /** The rank of position `i` of an assembled layout with `n` description and `m` date blocks. */
  function PartRank(i: nat, n: nat, m: nat): nat {
    if i < 2 then i
    else if i < 2 + n then 2
    else if i == 2 + n then 3
    else if i < 3 + n + m then 4
    else 5
  }

  /** The category block, and the description and date blocks when present, occur in the rendered layout. */
  lemma LayoutBlocksRendered(title: string, description: string, link: string, pubDate: string, category: int)
    ensures var m := RenderAll(Layout(title, description, link, pubDate, category));
      && IsSubstring(Render(CategoryField(category)), m)
      && (|description| > 0 ==> IsSubstring(Render(DescriptionField(TruncateDescription(description))), m))
      && (|pubDate| > 0 ==> IsSubstring(Render(DateField(pubDate)), m))
  {
    var fs := Layout(title, description, link, pubDate, category);
    BlockRendered(fs, CategoryField(category));
    if |description| > 0 {
      BlockRendered(fs, DescriptionField(TruncateDescription(description)));
    }
    if |pubDate| > 0 {
      BlockRendered(fs, DateField(pubDate));
    }
  }

  /** Every block of a layout shows up in its rendering. */
  lemma BlockRendered(fs: seq<Field>, f: Field)
    requires f in fs
    ensures IsSubstring(Render(f), RenderAll(fs))
  {
    var i :| 0 <= i < |fs| && fs[i] == f;
    ConcatContains(Texts(fs), i);
  }

  /**
   `format_message`: the rendered layout. The message always opens with the
   header and the title line and always ends with the link line.
   */
  function FormatMessage(title: string, description: string, link: string, pubDate: string, category: int): (m: string)
    ensures StartsWith(m, Render(Header) + Render(TitleField(title)))
    ensures EndsWith(m, Render(LinkField(link)))
    ensures IsSubstring(Render(CategoryField(category)), m)
    ensures |description| > 0 ==> IsSubstring(Render(DescriptionField(TruncateDescription(description))), m)
    ensures |pubDate| > 0 ==> IsSubstring(Render(DateField(pubDate)), m)
  {
    var fs := Layout(title, description, link, pubDate, category);
    var parts := Texts(fs);
    ConcatHead(parts);
    ConcatLast(parts);
    LayoutBlocksRendered(title, description, link, pubDate, category);
    var m := RenderAll(fs);
    var head := parts[0] + parts[1];
    assert m == head + Concat(parts[2..]);
    assert m[..|head|] == head;
    m
  }

  // ---------------------------------------------------------------------------
  // notify_if_needed
  // ---------------------------------------------------------------------------

  /**
   What `notify_if_needed` does: the message it hands to the sender, if any,
   and the value it returns.
   */
  datatype Notification = Notification(sent: Option<string>, returned: bool)

  /**
   The decision part of `notify_if_needed`: when the policy says no, nothing
   is sent and false is returned; otherwise the formatted message is sent.
   Delivery errors are swallowed by the sender, so true is returned
   whatever became of the message.
   */
  function NotifyIfNeeded(p: Policy, title: string, description: string, link: string, pubDate: string, category: int): (n: Notification)
    ensures n.returned <==> ShouldNotify(p, title, description, category)
    ensures !ShouldNotify(p, title, description, category) ==> n.sent == None && !n.returned
    ensures n.returned <==> n.sent.Some?
    ensures n.sent.Some? ==> n.sent.value == FormatMessage(title, description, link, pubDate, category)
    ensures Vetoed(p, title, description) ==> n.sent == None
  {
    if ShouldNotify(p, title, description, category) then
      Notification(Some(FormatMessage(title, description, link, pubDate, category)), true)
    else
      Notification(None, false)
  }
}
