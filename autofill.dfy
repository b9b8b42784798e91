/** Filling one upload block of the EPrints "Edit → Upload" page, and a pass
    over every block on the page.

    A block is the part of the page the autofill reads and writes: the
    `data-epx-filled` marker, the file name label, the description input and
    the two selects. A control the page lacks is `None`. Events the autofill
    dispatches are recorded, in order, as `notices`. */
module Autofill {
  import opened Wrappers
  import opened JsText
  import opened FileNames
  import opened Canonical

  /** The value the marker is set to once a block has been filled. */
  const FilledMark: string := "1"

  /** The lower-cased option label the language select is set to. */
  const Indonesian: string := "indonesian"

  /** An `<option>`: its visible label and its form value. */
  datatype Choice = Choice(text: string, value: string)

  /** A `<select>`: its options and its current value. */
  datatype Select = Select(options: seq<Choice>, value: string)

  datatype Control = Description | Security | Language

  /** An `input` or `change` event dispatched on a control. */
  datatype Notice = InputNotice(target: Control) | ChangeNotice(target: Control)

  datatype BlockState = BlockState(
    mark: Option<string>,         // `data-epx-filled`
    fileName: Option<string>,     // text of the `.document_filename` element
    description: Option<string>,  // value of the format description input
    security: Option<Select>,     // the "Visible to" select
    language: Option<Select>,     // the language select
    notices: seq<Notice>)         // events dispatched so far

  /** The block has been filled before: the guard that makes autofill run once. */
  predicate IsFilled(st: BlockState)
  {
    st.mark == Some(FilledMark)
  }

  /** A block that will be filled by the next pass. */
  predicate IsFresh(st: BlockState)
  {
    !IsFilled(st) && st.fileName.Some?
  }

  /** The description written into a block whose file name label reads `text`:
      the canonical description of the parsed name, read off the rule table
      (`CanonicalIsDecisionList` proves the table and the chain of tests agree). */
  function WriteDescription(text: string): string
  {
    Decide(ParseFileName(Trim(text)).desc)
  }

  /** The parsed description names a cover page. */
  predicate NamesCover(text: string)
  {
    var l := Lower(ParseFileName(Trim(text)).desc);
    Contains(l, "cover") || Contains(l, "halaman judul")
  }

  /** The "Visible to" label wanted for a description: only a cover is public. */
  function VisibilityLabel(writeDesc: string): (want: string)
    ensures want == "Anyone" <==> writeDesc == "COVER"
    ensures want == "Anyone" || want == "Registered users only"
  {
    if writeDesc == "COVER" then "Anyone" else "Registered users only"
  }

  /** An option whose trimmed, lower-cased label is `wantLower`. Only a
      lower-case `wantLower` can match, which is why the wanted label is
      lower-cased before the search. */
  function Matches(c: Choice, wantLower: string): (m: bool)
    ensures m ==> Lower(wantLower) == wantLower
  {
    LowerOfLower(Trim(c.text));
    Lower(Trim(c.text)) == wantLower
  }

  /** The index of the first option matching `wantLower`, if any. */
  function FirstMatchIndex(options: seq<Choice>, wantLower: string): (r: Option<nat>)
    ensures r.Some? ==> r.value < |options| && Matches(options[r.value], wantLower)
    ensures r.Some? ==> forall j :: 0 <= j < r.value ==> !Matches(options[j], wantLower)
    ensures r.None? ==> forall j :: 0 <= j < |options| ==> !Matches(options[j], wantLower)
  {
    if |options| == 0 then
      None
    else if Matches(options[0], wantLower) then
      Some(0)
    else
      match FirstMatchIndex(options[1..], wantLower)
      case None => None
      case Some(k) => Some(k + 1)
  }

  /** Walks the options in order and stops at the first whose label matches. */
  method PickOption(options: seq<Choice>, wantLower: string) returns (matched: bool, value: string)
    ensures matched <==> FirstMatchIndex(options, wantLower).Some?
    ensures matched ==> value == options[FirstMatchIndex(options, wantLower).value].value
  {
    matched := false;
    value := "";
    var i := 0;
    while i < |options|
      invariant 0 <= i <= |options|
      invariant forall j :: 0 <= j < i ==> !Matches(options[j], wantLower)
    {
      if Lower(Trim(options[i].text)) == wantLower {
        value := options[i].value;
        matched := true;
        FirstMatchAt(options, wantLower, i);
        break;
      }
      i := i + 1;
    }
  }

  /** The first option that matches is the one `FirstMatchIndex` finds. */
  lemma FirstMatchAt(options: seq<Choice>, wantLower: string, i: nat)
    requires i < |options| && Matches(options[i], wantLower)
    requires forall j :: 0 <= j < i ==> !Matches(options[j], wantLower)
    ensures FirstMatchIndex(options, wantLower) == Some(i)
  {
    var r := FirstMatchIndex(options, wantLower);
    if r.Some? {
      assert !(r.value < i) && !(i < r.value);
    }
  }

  /** The select after the autofill has looked for `wantLower` in it. */
  function Choose(sel: Select, wantLower: string): Select
  {
    match FirstMatchIndex(sel.options, wantLower)
    case Some(k) => sel.(value := sel.options[k].value)
    case None => sel
  }

  /** The `change` event dispatched on the select `target` when it exists and
      an option matched. */
  function SelectNotices(sel: Option<Select>, wantLower: string, target: Control): seq<Notice>
  {
    if sel.Some? && FirstMatchIndex(sel.value.options, wantLower).Some? then [ChangeNotice(target)] else []
  }

  /** The `input` and `change` events dispatched on the description input, if it exists. */
  function DescriptionNotices(st: BlockState): seq<Notice>
  {
    if st.description.Some? then [InputNotice(Description), ChangeNotice(Description)] else []
  }

  function FillDescription(st: BlockState, writeDesc: string): BlockState
  {
    if st.description.Some? then
      st.(description := Some(writeDesc), notices := st.notices + DescriptionNotices(st))
    else
      st
  }

  function FillSecurity(st: BlockState, wantLower: string): BlockState
  {
    if st.security.Some? then
      st.(security := Some(Choose(st.security.value, wantLower)),
          notices := st.notices + SelectNotices(st.security, wantLower, Security))
    else
      st
  }

  function FillLanguage(st: BlockState): BlockState
  {
    if st.language.Some? then
      st.(language := Some(Choose(st.language.value, Indonesian)),
          notices := st.notices + SelectNotices(st.language, Indonesian, Language))
    else
      st
  }

  /** A block filled with the description `writeDesc`: the description, the
      visibility and the language are set where the controls exist, and the
      block is marked. */
  function FillBlock(st: BlockState, writeDesc: string): BlockState
  {
    var d := FillDescription(st, writeDesc);
    var s := FillSecurity(d, Lower(VisibilityLabel(writeDesc)));
    FillLanguage(s).(mark := Some(FilledMark))
  }

  /** The block after one autofill: nothing happens to a filled block or to one
      without a file name label; any other is filled with the canonical
      description of its file name. The marker is set afterwards exactly when
      the block was filled before or has a file name label, so a block without
      one is tried again by a later pass. */
  function Autofilled(st: BlockState): (r: BlockState)
    ensures IsFilled(r) <==> IsFilled(st) || st.fileName.Some?
  {
    if IsFilled(st) || st.fileName.None? then
      st
    else
      FillBlock(st, WriteDescription(st.fileName.value))
  }

  /** Filling touches only values: the file name label, which controls exist
      and their options stay as they were, and events are only appended. */
  lemma FillKeeps(st: BlockState, writeDesc: string)
    ensures var r := FillBlock(st, writeDesc);
      && r.fileName == st.fileName
      && r.description.Some? == st.description.Some?
      && r.security.Some? == st.security.Some?
      && (r.security.Some? ==> r.security.value.options == st.security.value.options)
      && r.language.Some? == st.language.Some?
      && (r.language.Some? ==> r.language.value.options == st.language.value.options)
      && st.notices <= r.notices
  {
  }

  /** A block that is filled already, or has no file name label, is left
      entirely as it was. */
  lemma Untouched(st: BlockState)
    requires !IsFresh(st)
    ensures Autofilled(st) == st
  {
  }

  /** A second pass changes nothing and dispatches no event. */
  lemma AutofillIdempotent(st: BlockState)
    ensures Autofilled(Autofilled(st)) == Autofilled(st)
  {
  }

  /** A fresh block with a description input receives the canonical description
      of its file name. */
  lemma DescriptionWritten(st: BlockState)
    requires IsFresh(st) && st.description.Some?
    ensures Autofilled(st).description == Some(WriteDescription(st.fileName.value))
  {
  }

  /** The description written is the canonical form of the parsed name, and
      writing it again would give the same text. */
  lemma DescriptionStable(text: string)
    ensures CanonicalDescription(WriteDescription(text)) == WriteDescription(text)
  {
    var desc := ParseFileName(Trim(text)).desc;
    CanonicalIsDecisionList(desc);
    CanonicalIdempotent(desc);
  }

  /** Only a cover is public: the wanted "Visible to" label is `Anyone` exactly
      when the parsed description contains "cover" or "halaman judul". */
  lemma CoverIsPublic(text: string)
    ensures VisibilityLabel(WriteDescription(text)) == "Anyone" <==> NamesCover(text)
  {
    var desc := ParseFileName(Trim(text)).desc;
    CanonicalIsDecisionList(desc);
    CoverIff(desc);
  }

  /** The "Visible to" select of a fresh block is searched for the wanted label, lower-cased. */
  lemma SecurityChosen(st: BlockState)
    requires IsFresh(st) && st.security.Some?
    ensures Autofilled(st).security ==
      Some(Choose(st.security.value, Lower(VisibilityLabel(WriteDescription(st.fileName.value)))))
  {
  }

  /** Visibility: the select is searched for "Anyone", in any case, exactly when
      the file name describes a cover page, and for "Registered users only" otherwise. */
  lemma VisibilityFollowsCover(st: BlockState)
    requires IsFresh(st) && st.security.Some?
    ensures NamesCover(st.fileName.value) ==>
      Autofilled(st).security == Some(Choose(st.security.value, Lower("Anyone")))
    ensures !NamesCover(st.fileName.value) ==>
      Autofilled(st).security == Some(Choose(st.security.value, Lower("Registered users only")))
  {
    CoverIsPublic(st.fileName.value);
    SecurityChosen(st);
  }

  /** The select ends on the first option with the wanted label; with no such
      option its value is left alone. */
  lemma ChooseFirst(sel: Select, wantLower: string)
    ensures Choose(sel, wantLower).options == sel.options
    ensures (exists j :: 0 <= j < |sel.options| && Matches(sel.options[j], wantLower)) ==>
      exists k :: 0 <= k < |sel.options| && Matches(sel.options[k], wantLower) &&
        (forall j :: 0 <= j < k ==> !Matches(sel.options[j], wantLower)) &&
        Choose(sel, wantLower).value == sel.options[k].value
    ensures (forall j :: 0 <= j < |sel.options| ==> !Matches(sel.options[j], wantLower)) ==>
      Choose(sel, wantLower) == sel
  {
    match FirstMatchIndex(sel.options, wantLower)
    case Some(k) =>
      assert Matches(sel.options[k], wantLower);
    case None =>
  }

  /** The language select of a fresh block is searched for "indonesian". */
  lemma LanguageIndonesian(st: BlockState)
    requires IsFresh(st) && st.language.Some?
    ensures Autofilled(st).language == Some(Choose(st.language.value, Indonesian))
  {
  }

  /** The events a fill dispatches: the description's, then the visibility
      select's, then the language select's. */
  lemma FillOrder(st: BlockState, writeDesc: string)
    ensures FillBlock(st, writeDesc).notices == st.notices + DescriptionNotices(st)
      + SelectNotices(st.security, Lower(VisibilityLabel(writeDesc)), Security)
      + SelectNotices(st.language, Indonesian, Language)
  {
    var d := FillDescription(st, writeDesc);
    var s := FillSecurity(d, Lower(VisibilityLabel(writeDesc)));
    assert d.notices == st.notices + DescriptionNotices(st);
    assert s.notices == d.notices + SelectNotices(st.security, Lower(VisibilityLabel(writeDesc)), Security);
  }

  /** Events: `input` and `change` on the description exactly when the input
      exists, and `change` on a select exactly when it exists and one of its
      options matched. */
  lemma FillNotices(st: BlockState, writeDesc: string)
    ensures var added := FillBlock(st, writeDesc).notices[|st.notices|..];
      && (InputNotice(Description) in added <==> st.description.Some?)
      && (ChangeNotice(Description) in added <==> st.description.Some?)
      && (ChangeNotice(Security) in added <==>
            st.security.Some? &&
            FirstMatchIndex(st.security.value.options, Lower(VisibilityLabel(writeDesc))).Some?)
      && (ChangeNotice(Language) in added <==>
            st.language.Some? && FirstMatchIndex(st.language.value.options, Indonesian).Some?)
  {
    var want := Lower(VisibilityLabel(writeDesc));
    FillOrder(st, writeDesc);
    var added := DescriptionNotices(st) + SelectNotices(st.security, want, Security)
      + SelectNotices(st.language, Indonesian, Language);
    assert FillBlock(st, writeDesc).notices[|st.notices|..] == added;
    NoticesIff(st, want);
  }

  /** The parts of a fill's events, each on its own control. */
  lemma NoticesIff(st: BlockState, want: string)
    ensures var added := DescriptionNotices(st) + SelectNotices(st.security, want, Security)
        + SelectNotices(st.language, Indonesian, Language);
      && (InputNotice(Description) in added <==> st.description.Some?)
      && (ChangeNotice(Description) in added <==> st.description.Some?)
      && (ChangeNotice(Security) in added <==>
            st.security.Some? && FirstMatchIndex(st.security.value.options, want).Some?)
      && (ChangeNotice(Language) in added <==>
            st.language.Some? && FirstMatchIndex(st.language.value.options, Indonesian).Some?)
  {
  }

  /** No other event goes out, and none goes out twice. */
  lemma FillNoticesOnly(st: BlockState, writeDesc: string)
    ensures var added := FillBlock(st, writeDesc).notices[|st.notices|..];
      && (forall n :: n in added ==>
            n in [InputNotice(Description), ChangeNotice(Description), ChangeNotice(Security), ChangeNotice(Language)])
      && (forall i, j :: 0 <= i < j < |added| ==> added[i] != added[j])
  {
    var want := Lower(VisibilityLabel(writeDesc));
    FillOrder(st, writeDesc);
    var added := DescriptionNotices(st) + SelectNotices(st.security, want, Security)
      + SelectNotices(st.language, Indonesian, Language);
    assert FillBlock(st, writeDesc).notices[|st.notices|..] == added;
    NoticesDistinct(st, want);
  }

  /** The parts of a fill's events hold no event twice, and only the
      description's pair and the selects' `change`. */
  lemma NoticesDistinct(st: BlockState, want: string)
    ensures var added := DescriptionNotices(st) + SelectNotices(st.security, want, Security)
        + SelectNotices(st.language, Indonesian, Language);
      && (forall n :: n in added ==>
            n in [InputNotice(Description), ChangeNotice(Description), ChangeNotice(Security), ChangeNotice(Language)])
      && (forall i, j :: 0 <= i < j < |added| ==> added[i] != added[j])
  {
  }

  /** A block of the upload page, filled in place. */
  class Block {
    var mark: Option<string>
    var fileName: Option<string>
    var description: Option<string>
    var security: Option<Select>
    var language: Option<Select>
    var notices: seq<Notice>

    function State(): BlockState
      reads this
    {
      BlockState(mark, fileName, description, security, language, notices)
    }

    constructor(st: BlockState)
      ensures State() == st
    {
      mark := st.mark;
      fileName := st.fileName;
      description := st.description;
      security := st.security;
      language := st.language;
      notices := st.notices;
    }

    /** Fills this block once: description, visibility, language, then the marker. */
    method Autofill()
      modifies this
      ensures State() == Autofilled(old(State()))
    {
      if mark == Some(FilledMark) {
        return;
      }
      if fileName.None? {
        return;
      }
      var info := ParseFileName(Trim(fileName.value));
      var writeDesc := CanonicalDescription(info.desc);
      CanonicalIsDecisionList(info.desc);
      SetDescription(writeDesc);
      SetSecurity(Lower(VisibilityLabel(writeDesc)));
      SetLanguage();
      mark := Some(FilledMark);
    }

    /** Writes the description, if the block has the input, and announces it. */
    method SetDescription(writeDesc: string)
      modifies this
      ensures State() == FillDescription(old(State()), writeDesc)
    {
      if description.Some? {
        description := Some(writeDesc);
        notices := notices + [InputNotice(Description), ChangeNotice(Description)];
      }
    }

    /** Selects the first "Visible to" option labelled `wantLower`, if any. */
    method SetSecurity(wantLower: string)
      modifies this
      ensures State() == FillSecurity(old(State()), wantLower)
    {
      if security.Some? {
        var sel := security.value;
        var matched, value := PickOption(sel.options, wantLower);
        if matched {
          security := Some(sel.(value := value));
          notices := notices + [ChangeNotice(Security)];
        }
      }
    }

    /** Selects the first language option labelled "indonesian", if any. */
    method SetLanguage()
      modifies this
      ensures State() == FillLanguage(old(State()))
    {
      if language.Some? {
        var sel := language.value;
        var matched, value := PickOption(sel.options, Indonesian);
        if matched {
          language := Some(sel.(value := value));
          notices := notices + [ChangeNotice(Language)];
        }
      }
    }
  }

  /** One pass over the blocks on the page, in document order. A block listed
      twice is filled once: the second visit finds its marker. */
  method ProcessAll(blocks: seq<Block>)
    modifies set b | b in blocks
    ensures forall b :: b in blocks ==> b.State() == Autofilled(old(b.State()))
  {
    if |blocks| == 0 {
      return;
    }
    var i := 0;
    ghost var done: set<Block> := {};
    while i < |blocks|
      invariant 0 <= i <= |blocks|
      invariant forall j :: 0 <= j < i ==> blocks[j] in done
      invariant forall b :: b in done ==> b in blocks
      invariant forall b :: b in done ==> b.State() == Autofilled(old(b.State()))
      invariant forall b :: b in blocks && b !in done ==> b.State() == old(b.State())
    {
      var b := blocks[i];
      if b in done {
        AutofillIdempotent(old(b.State()));
      }
      b.Autofill();
      done := done + {b};
      i := i + 1;
    }
  }
}
