/** The release list of the application: YAML text clean-up, the ordering of releases
    and of each release's variants, validation of image entries, the row filter, the
    file-dialog filters and the bounds-checked selection accessors and setters.
    Releases and variants are values here; an architecture is its enum index, and the
    resolution of architectures and image types from text is given as functions. */
module Releases {
  import opened Common

  /** Rows shown on the front page. */
  const FRONTPAGE_ROW_COUNT: nat := 3

  /** The display name and file extensions of an image type, and whether it is known. */
  datatype ImageType = ImageType(name: string, abbreviation: seq<string>, valid: bool)

  /** One downloadable image of a release. */
  datatype Variant = Variant(url: string, arch: nat, imageType: ImageType, board: string)

  datatype Release = Release(name: string, variants: seq<Variant>, selectedVariant: int)

  /** One entry of an image file after YAML parsing; `arch` and `board` are optional keys. */
  datatype Entry = Entry(link: string, solution: string, arch: Option<string>, board: Option<string>)

  /** A validated entry: the release name it applies to and the variant it describes. */
  datatype Loaded = Loaded(name: string, variant: Variant)

  // ---------------------------------------------------------------- YAML text

  /** `ymlToQString`: HTML entities that Qt does not render become plain characters and
      newlines become spaces, since the text is word-wrapped. */
  function YmlToQString(s: string): (r: string)
    ensures '\n' !in r
    ensures |r| <= |s|
  {
    var a := ReplaceAll(s, "&colon;", ":");
    var b := ReplaceAll(a, "&nbsp;", " ");
    ReplaceNotLonger(s, "&colon;", ":");
    ReplaceNotLonger(a, "&nbsp;", " ");
    ReplaceCharRemovesIt(b, '\n', ' ');
    ReplaceAll(b, "\n", " ")
  }

  /** Text without entities and newlines passes through unchanged. */
  lemma YmlPlainTextUnchanged(s: string)
    requires !Contains(s, "&colon;") && !Contains(s, "&nbsp;") && !Contains(s, "\n")
    ensures YmlToQString(s) == s
  {
    ReplaceAbsentIsIdentity(s, "&colon;", ":");
    ReplaceAbsentIsIdentity(s, "&nbsp;", " ");
    ReplaceAbsentIsIdentity(s, "\n", " ");
  }

  // ---------------------------------------------------------------- searching

  /** Index of the first variant satisfying `test`, or `|variants|` when there is none. */
  function FirstIndex(variants: seq<Variant>, test: Variant -> bool): (k: nat)
    ensures k <= |variants|
    ensures forall j :: 0 <= j < k ==> !test(variants[j])
    ensures k < |variants| ==> test(variants[k])
  {
    if variants == [] then 0
    else if test(variants[0]) then 0
    else 1 + FirstIndex(variants[1..], test)
  }

  function SameSlot(arch: nat, board: string): Variant -> bool {
    (v: Variant) => v.arch == arch && v.board == board
  }

  function ArchAbove(arch: nat): Variant -> bool {
    (v: Variant) => v.arch > arch
  }

  function ArchIs(arch: int): Variant -> bool {
    (v: Variant) => v.arch == arch
  }

  // ---------------------------------------------------------------- accessors

  predicate IsLocal(release: Release) {
    release.name == "custom"
  }

  /** `ReleaseListModel::get` and `ReleaseManager::get`: null out of range. */
  function Get(releases: seq<Release>, index: int): (r: Option<Release>)
    ensures r.Some? <==> 0 <= index < |releases|
    ensures r.Some? ==> r.value == releases[index]
  {
    if 0 <= index < |releases| then Some(releases[index]) else None
  }

  /** `ReleaseManager::selected`: the release at the selected row, if that row exists. */
  function Selected(releases: seq<Release>, selectedIndex: int): (r: Option<Release>)
    ensures r.Some? <==> 0 <= selectedIndex < |releases|
    ensures r.Some? ==> r.value == releases[selectedIndex]
  {
    if 0 <= selectedIndex < |releases| then Get(releases, selectedIndex) else None
  }

  /** `Release::selectedVariant`: null when the stored index is out of range. */
  function SelectedVariant(release: Release): (r: Option<Variant>)
    ensures r.Some? <==> 0 <= release.selectedVariant < |release.variants|
    ensures r.Some? ==> r.value == release.variants[release.selectedVariant]
  {
    if 0 <= release.selectedVariant < |release.variants| then
      Some(release.variants[release.selectedVariant])
    else
      None
  }

  /** `ReleaseManager::variant`: the selected variant of the selected release. */
  function CurrentVariant(releases: seq<Release>, selectedIndex: int): (r: Option<Variant>)
    ensures r.Some? <==> 0 <= selectedIndex < |releases|
                         && 0 <= releases[selectedIndex].selectedVariant < |releases[selectedIndex].variants|
    ensures r.Some? ==> r.value == releases[selectedIndex].variants[releases[selectedIndex].selectedVariant]
  {
    match Selected(releases, selectedIndex)
    case None => None
    case Some(release) => SelectedVariant(release)
  }

  // ---------------------------------------------------------------- row filter

  /** `filterAcceptsRow`. Off the front page the row must exist: the source dereferences
      the release it looks up. */
  function FilterAcceptsRow(releases: seq<Release>, frontPage: bool, filterArchitecture: int, row: int): (accepted: bool)
    requires frontPage || 0 <= row < |releases|
    ensures frontPage ==> (accepted <==> row < FRONTPAGE_ROW_COUNT)
    ensures !frontPage && IsLocal(releases[row]) ==> accepted
    ensures !frontPage && !IsLocal(releases[row]) ==>
      (accepted <==> exists j :: 0 <= j < |releases[row].variants| && releases[row].variants[j].arch == filterArchitecture)
  {
    if frontPage then
      row < FRONTPAGE_ROW_COUNT
    else if IsLocal(releases[row]) then
      true
    else
      var variants := releases[row].variants;
      var k := FirstIndex(variants, ArchIs(filterArchitecture));
      assert k < |variants| ==> variants[k].arch == filterArchitecture;
      k < |variants|
  }

  // ---------------------------------------------------------------- file-dialog filters

  /** The separator the source writes before pattern `j`: a space when the FIRST
      occurrence of that extension is not at position 0. */
  function Separator(abbreviation: seq<string>, j: nat): string
    requires j < |abbreviation|
  {
    var first := FirstOccurrence(abbreviation, abbreviation[j]);
    if first > 0 then " " else ""
  }

  /** `QStringList::indexOf`, for an element that is present. */
  function FirstOccurrence(list: seq<string>, e: string): (k: nat)
    ensures k <= |list|
    ensures forall j :: 0 <= j < k ==> list[j] != e
    ensures k < |list| ==> list[k] == e
  {
    if list == [] then 0
    else if list[0] == e then 0
    else 1 + FirstOccurrence(list[1..], e)
  }

  /** `QStringList::indexOf`: the position of the first element equal to `e`, or
      `|list|` (the source's -1) when there is none. */
  method IndexOf(list: seq<string>, e: string) returns (k: nat)
    ensures k == FirstOccurrence(list, e)
    ensures k < |list| <==> e in list
  {
    k := 0;
    while k < |list| && list[k] != e
      invariant k <= |list|
      invariant forall j :: 0 <= j < k ==> list[j] != e
    {
      k := k + 1;
    }
  }

  /** The patterns of the first `n` extensions, each preceded by its separator. */
  function Patterns(abbreviation: seq<string>, n: nat): string
    requires n <= |abbreviation|
  {
    if n == 0 then ""
    else Patterns(abbreviation, n - 1) + Pattern(abbreviation, n - 1)
  }

  /** The pattern of extension `j` with its separator. */
  function Pattern(abbreviation: seq<string>, j: nat): string
    requires j < |abbreviation|
  {
    Separator(abbreviation, j) + "*." + abbreviation[j]
  }

  /** The extension group of one image type, empty when it has no extensions. */
  function ExtensionGroup(abbreviation: seq<string>): (group: string)
    ensures group == "" <==> abbreviation == []
  {
    if abbreviation == [] then "" else "(" + Patterns(abbreviation, |abbreviation|) + ")"
  }

  /** Every extension pattern separated by a single space. */
  function SpaceJoined(abbreviation: seq<string>, n: nat): string
    requires n <= |abbreviation|
  {
    if n == 0 then ""
    else if n == 1 then "*." + abbreviation[0]
    else SpaceJoined(abbreviation, n - 1) + " " + "*." + abbreviation[n - 1]
  }

  predicate Distinct(list: seq<string>) {
    forall i, j :: 0 <= i < j < |list| ==> list[i] != list[j]
  }

  /** The extension group built by the loop of `fileNameFilters`. */
  method Extensions(abbreviation: seq<string>) returns (out: string)
    ensures out == ExtensionGroup(abbreviation)
    ensures abbreviation == [] <==> out == ""
  {
    if abbreviation == [] {
      return "";
    }
    var patterns := "";
    var i := 0;
    while i < |abbreviation|
      invariant i <= |abbreviation|
      invariant patterns == Patterns(abbreviation, i)
    {
      var e := abbreviation[i];
      var first := IndexOf(abbreviation, e);
      var pattern := (if first > 0 then " " else "") + "*." + e;
      assert pattern == Pattern(abbreviation, i);
      patterns := patterns + pattern;
      i := i + 1;
    }
    out := "(" + patterns + ")";
  }

  /** With distinct extensions the group is the patterns separated by single spaces. */
  lemma {:induction false} DistinctExtensionsAreSpaced(abbreviation: seq<string>, n: nat)
    requires Distinct(abbreviation) && n <= |abbreviation|
    ensures Patterns(abbreviation, n) == SpaceJoined(abbreviation, n)
  {
    if n > 0 {
      DistinctExtensionsAreSpaced(abbreviation, n - 1);
      var k := FirstOccurrence(abbreviation, abbreviation[n - 1]);
      assert k == n - 1;
    }
  }

  /** A repeat of the first extension is written without a separating space, since
      its first occurrence is at position 0. */
  lemma RepeatOfFirstIsNotSpaced(abbreviation: seq<string>, j: nat)
    requires 0 < j < |abbreviation| && abbreviation[j] == abbreviation[0]
    ensures Separator(abbreviation, j) == ""
  {
  }

  const ALL_FILES_FILTER: string := "All files (*)"

  /** The filter of one image type: its name and its extension group. */
  function FilterOf(t: ImageType): string {
    t.name + " " + ExtensionGroup(t.abbreviation)
  }

  /** The first `n` image types that have at least one extension, in order. */
  function WithExtensions(types: seq<ImageType>, n: nat): seq<ImageType>
    requires n <= |types|
  {
    if n == 0 then []
    else WithExtensions(types, n - 1) + (if types[n - 1].abbreviation == [] then [] else [types[n - 1]])
  }

  function CountWithExtensions(types: seq<ImageType>, n: nat): nat
    requires n <= |types|
  {
    if n == 0 then 0
    else CountWithExtensions(types, n - 1) + (if types[n - 1].abbreviation == [] then 0 else 1)
  }

  /** `fileNameFilters`: one filter per image type with extensions, in order, and the
      catch-all filter last. */
  method FileNameFilters(types: seq<ImageType>) returns (filters: seq<string>)
    ensures var shown := WithExtensions(types, |types|);
      |filters| == |shown| + 1
      && (forall i :: 0 <= i < |shown| ==> filters[i] == FilterOf(shown[i]))
      && filters[|shown|] == ALL_FILES_FILTER
  {
    filters := [];
    var i := 0;
    while i < |types|
      invariant i <= |types|
      invariant |filters| == |WithExtensions(types, i)|
      invariant forall j :: 0 <= j < |filters| ==> filters[j] == FilterOf(WithExtensions(types, i)[j])
    {
      var extensions := Extensions(types[i].abbreviation);
      if extensions != "" {
        filters := filters + [types[i].name + " " + extensions];
      }
      i := i + 1;
    }
    filters := filters + [ALL_FILES_FILTER];
  }

  /** The filtered types are counted by `CountWithExtensions` and each is one of the
      given types with a non-empty extension list. */
  lemma {:induction false} WithExtensionsShape(types: seq<ImageType>, n: nat)
    requires n <= |types|
    ensures |WithExtensions(types, n)| == CountWithExtensions(types, n)
    ensures forall t :: t in WithExtensions(types, n) ==> t in types[..n] && t.abbreviation != []
  {
    if n > 0 {
      WithExtensionsShape(types, n - 1);
      assert types[..n] == types[..n - 1] + [types[n - 1]];
    }
  }

  // ---------------------------------------------------------------- variants

  /** `QList::insert`: an index at or past the end appends (release builds of Qt 5). */
  function Insert<T>(list: seq<T>, index: nat, x: T): (r: seq<T>)
    ensures |r| == |list| + 1
  {
    if index >= |list| then list + [x] else list[..index] + [x] + list[index..]
  }

  /** Where `Insert` puts the element, and what lies before and after it. */
  lemma InsertIndexing<T>(list: seq<T>, index: nat, x: T)
    ensures var r := Insert(list, index, x);
      var at := if index >= |list| then |list| else index;
      r[at] == x
      && (forall i :: 0 <= i < at ==> r[i] == list[i])
      && (forall i :: at < i < |r| ==> r[i] == list[i - 1])
  {
  }

  lemma InsertMultiset<T>(list: seq<T>, index: nat, x: T)
    ensures multiset(Insert(list, index, x)) == multiset(list) + multiset{x}
  {
    if index < |list| {
      assert list == list[..index] + list[index..];
      assert Insert(list, index, x) == list[..index] + ([x] + list[index..]);
    }
  }

  /** The variant list after `Release::updateUrl(url, arch, imageType, board)`. */
  function UpdatedVariants(variants: seq<Variant>, url: string, arch: nat, imageType: ImageType, board: string): seq<Variant> {
    var k := FirstIndex(variants, SameSlot(arch, board));
    if k < |variants| then
      variants[k := variants[k].(url := url)]
    else
      Insert(variants, FirstIndex(variants, ArchAbove(arch)), Variant(url, arch, imageType, board))
  }

  predicate SortedByArch(variants: seq<Variant>) {
    forall i, j :: 0 <= i < j < |variants| ==> variants[i].arch <= variants[j].arch
  }

  predicate HasSlot(variants: seq<Variant>, arch: nat, board: string) {
    exists j :: 0 <= j < |variants| && variants[j].arch == arch && variants[j].board == board
  }

  /** `Release::updateUrl`, with its two searches as loops. */
  method UpdateUrl(release: Release, url: string, arch: nat, imageType: ImageType, board: string) returns (release': Release)
    ensures release' == release.(variants := UpdatedVariants(release.variants, url, arch, imageType, board))
  {
    var variants := release.variants;
    var i := 0;
    while i < |variants|
      invariant i <= |variants|
      invariant forall j :: 0 <= j < i ==> !SameSlot(arch, board)(variants[j])
    {
      if variants[i].arch == arch && variants[i].board == board {
        assert FirstIndex(variants, SameSlot(arch, board)) == i;
        return release.(variants := variants[i := variants[i].(url := url)]);
      }
      i := i + 1;
    }
    assert FirstIndex(variants, SameSlot(arch, board)) == |variants|;
    var index := 0;
    while index < |variants| && variants[index].arch <= arch
      invariant index <= |variants|
      invariant forall j :: 0 <= j < index ==> !ArchAbove(arch)(variants[j])
    {
      index := index + 1;
    }
    assert index == FirstIndex(variants, ArchAbove(arch));
    release' := release.(variants := Insert(variants, index, Variant(url, arch, imageType, board)));
  }

  /** An existing variant for the same architecture and board only gets the new URL; of
      several such variants, the first one gets it. */
  lemma UpdateExistingOnlyChangesUrl(variants: seq<Variant>, url: string, arch: nat, imageType: ImageType, board: string)
    requires HasSlot(variants, arch, board)
    ensures var r := UpdatedVariants(variants, url, arch, imageType, board);
      |r| == |variants|
      && exists k :: 0 <= k < |variants| && variants[k].arch == arch && variants[k].board == board
           && (forall j :: 0 <= j < k ==> !(variants[j].arch == arch && variants[j].board == board))
           && r[k] == variants[k].(url := url)
           && forall j :: 0 <= j < |variants| && j != k ==> r[j] == variants[j]
  {
    var k := FirstIndex(variants, SameSlot(arch, board));
    var j :| 0 <= j < |variants| && variants[j].arch == arch && variants[j].board == board;
    assert SameSlot(arch, board)(variants[j]);
    assert k < |variants|;
  }

  /** A new architecture and board adds exactly one variant, the one described. */
  lemma UpdateNewAddsOne(variants: seq<Variant>, url: string, arch: nat, imageType: ImageType, board: string)
    requires !HasSlot(variants, arch, board)
    ensures var r := UpdatedVariants(variants, url, arch, imageType, board);
      |r| == |variants| + 1
      && multiset(r) == multiset(variants) + multiset{Variant(url, arch, imageType, board)}
  {
    var k := FirstIndex(variants, SameSlot(arch, board));
    assert forall j :: 0 <= j < |variants| ==> !SameSlot(arch, board)(variants[j]);
    InsertMultiset(variants, FirstIndex(variants, ArchAbove(arch)), Variant(url, arch, imageType, board));
  }

  /** Variants stay ordered by architecture. */
  lemma UpdateKeepsSorted(variants: seq<Variant>, url: string, arch: nat, imageType: ImageType, board: string)
    requires SortedByArch(variants)
    ensures SortedByArch(UpdatedVariants(variants, url, arch, imageType, board))
  {
    var k := FirstIndex(variants, SameSlot(arch, board));
    if k == |variants| {
      var at := FirstIndex(variants, ArchAbove(arch));
      var x := Variant(url, arch, imageType, board);
      var r := Insert(variants, at, x);
      InsertIndexing(variants, at, x);
      assert forall j :: 0 <= j < at ==> variants[j].arch <= arch;
      assert forall j :: at <= j < |variants| ==> variants[j].arch > arch by {
        forall j | at <= j < |variants| ensures variants[j].arch > arch {
          assert variants[at].arch > arch && variants[at].arch <= variants[j].arch;
        }
      }
    }
  }

  // ---------------------------------------------------------------- release list

  /** Where the list model puts a release read from a section file. */
  function MemberIndex(list: seq<Release>, name: string): nat {
    if name == "alt-workstation" then 0 else if name == "alt-server" then 1 else |list|
  }

  /** The releases of the section files, in file order. */
  function AllMembers(sections: seq<seq<Release>>): seq<Release> {
    if sections == [] then [] else AllMembers(sections[..|sections| - 1]) + sections[|sections| - 1]
  }

  /** The list after inserting `members` one by one at their `MemberIndex`. */
  function OrderMembers(members: seq<Release>): seq<Release> {
    if members == [] then []
    else
      var list := OrderMembers(members[..|members| - 1]);
      var r := members[|members| - 1];
      Insert(list, MemberIndex(list, r.name), r)
  }

  /** The custom release: one variant with an empty URL, the unknown architecture,
      the ISO image type and the board "UNKNOWN BOARD". */
  function CustomRelease(unknownArch: nat, isoType: ImageType, selectedVariant: int): Release {
    Release("custom", UpdatedVariants([], "", unknownArch, isoType, "UNKNOWN BOARD"), selectedVariant)
  }

  /** The complete list built by the `ReleaseListModel` constructor. */
  function ReleaseList(sections: seq<seq<Release>>, custom: Release): seq<Release> {
    var list := OrderMembers(AllMembers(sections));
    Insert(list, FRONTPAGE_ROW_COUNT - 1, custom)
  }

  /** The `ReleaseListModel` constructor: every section member is a release with no
      variants yet, placed by name; the custom release follows at row 2. */
  method BuildReleaseList(sections: seq<seq<Release>>, unknownArch: nat, isoType: ImageType, customSelected: int)
    returns (releases: seq<Release>)
    ensures releases == ReleaseList(sections, CustomRelease(unknownArch, isoType, customSelected))
  {
    releases := [];
    var s := 0;
    while s < |sections|
      invariant s <= |sections|
      invariant releases == OrderMembers(AllMembers(sections[..s]))
    {
      assert sections[..s + 1] == sections[..s] + [sections[s]];
      releases := PlaceMembers(releases, AllMembers(sections[..s]), sections[s]);
      s := s + 1;
    }
    assert sections[..s] == sections;
    var custom := Release("custom", [], customSelected);
    custom := UpdateUrl(custom, "", unknownArch, isoType, "UNKNOWN BOARD");
    releases := Insert(releases, FRONTPAGE_ROW_COUNT - 1, custom);
  }

  /** The members of one section file placed into a list already holding `earlier`. */
  method PlaceMembers(list: seq<Release>, ghost earlier: seq<Release>, members: seq<Release>) returns (list': seq<Release>)
    requires list == OrderMembers(earlier)
    ensures list' == OrderMembers(earlier + members)
  {
    list' := list;
    var m := 0;
    assert earlier + members[..0] == earlier;
    while m < |members|
      invariant m <= |members|
      invariant list' == OrderMembers(earlier + members[..m])
    {
      var release := members[m];
      var index := if release.name == "alt-workstation" then 0
                   else if release.name == "alt-server" then 1
                   else |list'|;
      assert index == MemberIndex(list', release.name);
      OrderMembersSnoc(earlier + members[..m], release);
      AppendNext(earlier, members, m);
      list' := Insert(list', index, release);
      m := m + 1;
    }
    assert members[..m] == members;
  }

  lemma AppendNext<T>(earlier: seq<T>, members: seq<T>, m: nat)
    requires m < |members|
    ensures earlier + members[..m + 1] == (earlier + members[..m]) + [members[m]]
  {
    assert members[..m + 1] == members[..m] + [members[m]];
  }

  lemma OrderMembersSnoc(members: seq<Release>, r: Release)
    ensures var list := OrderMembers(members);
      OrderMembers(members + [r]) == Insert(list, MemberIndex(list, r.name), r)
  {
    assert (members + [r])[..|members|] == members;
  }

  lemma {:induction false} OrderMembersLength(members: seq<Release>)
    ensures |OrderMembers(members)| == |members|
  {
    if members != [] {
      OrderMembersLength(members[..|members| - 1]);
    }
  }

  /** Each member adds one row and nothing is lost or duplicated. */
  lemma {:induction false} OrderMembersIsPermutation(members: seq<Release>)
    ensures multiset(OrderMembers(members)) == multiset(members)
  {
    if members != [] {
      var init, r := members[..|members| - 1], members[|members| - 1];
      OrderMembersIsPermutation(init);
      var list := OrderMembers(init);
      InsertMultiset(list, MemberIndex(list, r.name), r);
      assert members == init + [r];
    }
  }

  /** A workstation release, wherever it appears in the sections, ends up in row 0. */
  lemma {:induction false} WorkstationComesFirst(members: seq<Release>)
    requires exists j :: 0 <= j < |members| && members[j].name == "alt-workstation"
    ensures |OrderMembers(members)| > 0 && OrderMembers(members)[0].name == "alt-workstation"
  {
    var init, r := members[..|members| - 1], members[|members| - 1];
    var list := OrderMembers(init);
    InsertIndexing(list, MemberIndex(list, r.name), r);
    if r.name != "alt-workstation" {
      var j :| 0 <= j < |members| && members[j].name == "alt-workstation";
      assert j < |init| && init[j] == members[j];
      WorkstationComesFirst(init);
    }
  }

  /** The complete list: one row per member plus the custom release, which sits in
      row 2 (or last, when there are fewer than two members), with a workstation
      release still in row 0. */
  lemma ReleaseListShape(sections: seq<seq<Release>>, custom: Release)
    ensures var list := ReleaseList(sections, custom);
      var n := |AllMembers(sections)|;
      |list| == n + 1
      && multiset(list) == multiset(AllMembers(sections)) + multiset{custom}
      && list[if n < 2 then n else 2] == custom
    ensures (exists j :: 0 <= j < |AllMembers(sections)| && AllMembers(sections)[j].name == "alt-workstation")
      ==> ReleaseList(sections, custom)[0].name == "alt-workstation"
  {
    var members := AllMembers(sections);
    OrderMembersLength(members);
    OrderMembersIsPermutation(members);
    var ordered := OrderMembers(members);
    InsertIndexing(ordered, FRONTPAGE_ROW_COUNT - 1, custom);
    InsertMultiset(ordered, FRONTPAGE_ROW_COUNT - 1, custom);
    if exists j :: 0 <= j < |members| && members[j].name == "alt-workstation" {
      WorkstationComesFirst(members);
    }
  }

  // ---------------------------------------------------------------- image entries

  /** The checks of `loadReleaseFile` on one entry: link, name, architecture, board
      (default "PC") and image type, in that order. */
  function ValidateEntry(e: Entry, fromAbbreviation: string -> Option<nat>, fromFilename: string -> Option<nat>,
                         imageTypeOf: string -> ImageType): (r: Option<Loaded>)
    ensures r.Some? <==>
      var url := YmlToQString(e.link);
      var arch := if e.arch.Some? then fromAbbreviation(YmlToQString(e.arch.value)) else fromFilename(url);
      url != "" && YmlToQString(e.solution) != "" && arch.Some?
      && (e.board.None? || YmlToQString(e.board.value) != "") && imageTypeOf(url).valid
    ensures r.Some? ==>
      r.value.name == YmlToQString(e.solution)
      && r.value.variant.url == YmlToQString(e.link)
      && r.value.variant.imageType == imageTypeOf(r.value.variant.url)
      && r.value.variant.board == (if e.board.Some? then YmlToQString(e.board.value) else "PC")
      && Some(r.value.variant.arch) == (if e.arch.Some? then fromAbbreviation(YmlToQString(e.arch.value))
                                        else fromFilename(r.value.variant.url))
  {
    var url := YmlToQString(e.link);
    if url == "" then None
    else
      var name := YmlToQString(e.solution);
      if name == "" then None
      else
        var arch := if e.arch.Some? then fromAbbreviation(YmlToQString(e.arch.value)) else fromFilename(url);
        if arch.None? then None
        else
          var board := if e.board.Some? then YmlToQString(e.board.value) else "PC";
          if board == "" then None
          else
            var imageType := imageTypeOf(url);
            if !imageType.valid then None
            else Some(Loaded(name, Variant(url, arch.value, imageType, board)))
  }

  /** Whether a validated entry applies to a release: its lower-cased name contains
      the entry's name. */
  predicate AppliesTo(release: Release, name: string) {
    Contains(Lower(release.name), name)
  }

  function ApplyToRelease(release: Release, l: Loaded): Release {
    if AppliesTo(release, l.name) then
      release.(variants := UpdatedVariants(release.variants, l.variant.url, l.variant.arch, l.variant.imageType, l.variant.board))
    else
      release
  }

  /** The releases after a validated entry: each release it applies to is updated. */
  function ApplyLoaded(releases: seq<Release>, l: Loaded): (r: seq<Release>)
    ensures |r| == |releases|
    ensures forall i :: 0 <= i < |r| ==> r[i] == ApplyToRelease(releases[i], l)
  {
    seq(|releases|, i requires 0 <= i < |releases| => ApplyToRelease(releases[i], l))
  }

  /** The inner loop of `loadReleaseFile`: every release the entry applies to is updated. */
  method ApplyToAll(releases: seq<Release>, l: Loaded) returns (releases': seq<Release>)
    ensures releases' == ApplyLoaded(releases, l)
  {
    releases' := releases;
    var i := 0;
    while i < |releases'|
      invariant |releases'| == |releases|
      invariant i <= |releases'|
      invariant forall j :: 0 <= j < i ==> releases'[j] == ApplyToRelease(releases[j], l)
      invariant forall j :: i <= j < |releases'| ==> releases'[j] == releases[j]
    {
      if Contains(Lower(releases'[i].name), l.name) {
        var updated := UpdateUrl(releases'[i], l.variant.url, l.variant.arch, l.variant.imageType, l.variant.board);
        releases' := releases'[i := updated];
      }
      i := i + 1;
    }
  }

  /** The releases after the entries of one image file. */
  function LoadEntries(releases: seq<Release>, entries: seq<Entry>, fromAbbreviation: string -> Option<nat>,
                       fromFilename: string -> Option<nat>, imageTypeOf: string -> ImageType): seq<Release>
  {
    if entries == [] then releases
    else
      var before := LoadEntries(releases, entries[..|entries| - 1], fromAbbreviation, fromFilename, imageTypeOf);
      match ValidateEntry(entries[|entries| - 1], fromAbbreviation, fromFilename, imageTypeOf)
      case None => before
      case Some(l) => ApplyLoaded(before, l)
  }

  predicate AllSorted(releases: seq<Release>) {
    forall i :: 0 <= i < |releases| ==> SortedByArch(releases[i].variants)
  }

  /** Loading entries keeps the rows, their names and selections, and the order of
      every release's variants by architecture. */
  lemma {:induction false} LoadEntriesKeepsRows(releases: seq<Release>, entries: seq<Entry>, fromAbbreviation: string -> Option<nat>,
                                                fromFilename: string -> Option<nat>, imageTypeOf: string -> ImageType)
    ensures var r := LoadEntries(releases, entries, fromAbbreviation, fromFilename, imageTypeOf);
      |r| == |releases|
      && forall i :: 0 <= i < |r| ==> r[i].name == releases[i].name && r[i].selectedVariant == releases[i].selectedVariant
    ensures AllSorted(releases) ==> AllSorted(LoadEntries(releases, entries, fromAbbreviation, fromFilename, imageTypeOf))
  {
    if entries != [] {
      LoadEntriesKeepsRows(releases, entries[..|entries| - 1], fromAbbreviation, fromFilename, imageTypeOf);
      var before := LoadEntries(releases, entries[..|entries| - 1], fromAbbreviation, fromFilename, imageTypeOf);
      match ValidateEntry(entries[|entries| - 1], fromAbbreviation, fromFilename, imageTypeOf)
      case None =>
      case Some(l) =>
        var v := l.variant;
        forall i | 0 <= i < |before| && SortedByArch(before[i].variants)
          ensures SortedByArch(ApplyToRelease(before[i], l).variants)
        {
          UpdateKeepsSorted(before[i].variants, v.url, v.arch, v.imageType, v.board);
        }
    }
  }

  /** The releases after the entries of every image file, file by file. */
  function LoadFiles(releases: seq<Release>, files: seq<seq<Entry>>, fromAbbreviation: string -> Option<nat>,
                     fromFilename: string -> Option<nat>, imageTypeOf: string -> ImageType): seq<Release>
  {
    if files == [] then releases
    else
      var before := LoadFiles(releases, files[..|files| - 1], fromAbbreviation, fromFilename, imageTypeOf);
      LoadEntries(before, files[|files| - 1], fromAbbreviation, fromFilename, imageTypeOf)
  }

  /** Loading any number of image files keeps the rows, their names and selections, and
      the order of every release's variants by architecture. */
  lemma {:induction false} LoadFilesKeepsRows(releases: seq<Release>, files: seq<seq<Entry>>, fromAbbreviation: string -> Option<nat>,
                                              fromFilename: string -> Option<nat>, imageTypeOf: string -> ImageType)
    ensures var r := LoadFiles(releases, files, fromAbbreviation, fromFilename, imageTypeOf);
      |r| == |releases|
      && forall i :: 0 <= i < |r| ==> r[i].name == releases[i].name && r[i].selectedVariant == releases[i].selectedVariant
    ensures AllSorted(releases) ==> AllSorted(LoadFiles(releases, files, fromAbbreviation, fromFilename, imageTypeOf))
  {
    if files != [] {
      LoadFilesKeepsRows(releases, files[..|files| - 1], fromAbbreviation, fromFilename, imageTypeOf);
      var before := LoadFiles(releases, files[..|files| - 1], fromAbbreviation, fromFilename, imageTypeOf);
      LoadEntriesKeepsRows(before, files[|files| - 1], fromAbbreviation, fromFilename, imageTypeOf);
    }
  }

  // ---------------------------------------------------------------- selection

  /** `Release::setSelectedVariantIndex`: the stored index changes only when the new
      value differs and the CURRENT value is in range; the new value is not checked. */
  function SetSelectedVariantIndex(release: Release, o: int): (r: Release)
    ensures r.name == release.name && r.variants == release.variants
    ensures r.selectedVariant == o || r.selectedVariant == release.selectedVariant
    ensures r.selectedVariant != release.selectedVariant <==>
      release.selectedVariant != o && 0 <= release.selectedVariant < |release.variants|
  {
    if release.selectedVariant != o && 0 <= release.selectedVariant < |release.variants| then
      release.(selectedVariant := o)
    else
      release
  }

  /** Once the stored index is out of range, no later call can change it. */
  lemma OutOfRangeSelectionSticks(release: Release, o: int, o': int)
    requires 0 <= release.selectedVariant < |release.variants|
    requires !(0 <= o < |release.variants|)
    ensures SelectedVariant(SetSelectedVariantIndex(release, o)) == None
    ensures SetSelectedVariantIndex(SetSelectedVariantIndex(release, o), o') == SetSelectedVariantIndex(release, o)
  {
  }

  /** A release after the filter moved to architecture `o`: its first variant of that
      architecture, if any, is proposed as the selection. */
  function SelectArch(release: Release, o: int): Release {
    var k := FirstIndex(release.variants, ArchIs(o));
    if k < |release.variants| then SetSelectedVariantIndex(release, k) else release
  }

  /** After the filter moves to `o`, a release that has a variant of that architecture
      and had a valid selection now selects its first such variant. */
  lemma SelectArchSelectsFirstMatch(release: Release, o: int)
    requires 0 <= release.selectedVariant < |release.variants|
    requires exists j :: 0 <= j < |release.variants| && release.variants[j].arch == o
    ensures var r := SelectArch(release, o);
      SelectedVariant(r).Some? && SelectedVariant(r).value.arch == o
      && forall j :: 0 <= j < r.selectedVariant ==> release.variants[j].arch != o
  {
    var j :| 0 <= j < |release.variants| && release.variants[j].arch == o;
    assert ArchIs(o)(release.variants[j]);
  }

  /** The application's release state: the list model's rows, the front-page flag,
      the architecture filter and the selected row. */
  class ReleaseManager {
    var releases: seq<Release>
    var frontPage: bool
    var filterArchitecture: int
    var selectedIndex: int
    /** `Architecture::_ARCHCOUNT`. */
    const archCount: nat
    /** `Architecture::fromAbbreviation`, `Architecture::fromFilename` and
        `ImageType::fromFilename`; null is `None`. */
    const fromAbbreviation: string -> Option<nat>
    const fromFilename: string -> Option<nat>
    const imageTypeOf: string -> ImageType

    /** The constructor: the list model from the section files, then every bundled
        image file. The initial property values come from a header that is not part
        of this model and are parameters. */
    constructor (sections: seq<seq<Release>>, imageFiles: seq<seq<Entry>>, unknownArch: nat, isoType: ImageType,
                 customSelected: int, archCount: nat, fromAbbreviation: string -> Option<nat>,
                 fromFilename: string -> Option<nat>, imageTypeOf: string -> ImageType,
                 frontPage: bool, filterArchitecture: int, selectedIndex: int)
      ensures this.archCount == archCount && this.fromAbbreviation == fromAbbreviation
      ensures this.fromFilename == fromFilename && this.imageTypeOf == imageTypeOf
      ensures this.frontPage == frontPage && this.filterArchitecture == filterArchitecture
      ensures this.selectedIndex == selectedIndex
      ensures releases == LoadFiles(ReleaseList(sections, CustomRelease(unknownArch, isoType, customSelected)),
                                    imageFiles, fromAbbreviation, fromFilename, imageTypeOf)
      ensures |releases| == |AllMembers(sections)| + 1
    {
      this.archCount := archCount;
      this.fromAbbreviation := fromAbbreviation;
      this.fromFilename := fromFilename;
      this.imageTypeOf := imageTypeOf;
      this.frontPage := frontPage;
      this.filterArchitecture := filterArchitecture;
      this.selectedIndex := selectedIndex;
      var list := BuildReleaseList(sections, unknownArch, isoType, customSelected);
      releases := list;
      new;
      LoadReleaseFiles(imageFiles);
      OrderMembersLength(AllMembers(sections));
      LoadFilesKeepsRows(list, imageFiles, fromAbbreviation, fromFilename, imageTypeOf);
    }

    /** The constructor's loop: `loadReleaseFile` on every bundled image file, in order. */
    method LoadReleaseFiles(imageFiles: seq<seq<Entry>>)
      modifies this`releases
      ensures releases == LoadFiles(old(releases), imageFiles, fromAbbreviation, fromFilename, imageTypeOf)
    {
      ghost var start := releases;
      var f := 0;
      while f < |imageFiles|
        invariant f <= |imageFiles|
        invariant releases == LoadFiles(start, imageFiles[..f], fromAbbreviation, fromFilename, imageTypeOf)
      {
        assert imageFiles[..f + 1][..f] == imageFiles[..f];
        LoadReleaseFile(imageFiles[f]);
        f := f + 1;
      }
      assert imageFiles[..f] == imageFiles;
    }

    /** `loadReleaseFile` on the parsed entries of one image file. */
    method LoadReleaseFile(entries: seq<Entry>)
      modifies this`releases
      ensures releases == LoadEntries(old(releases), entries, fromAbbreviation, fromFilename, imageTypeOf)
      ensures |releases| == |old(releases)|
    {
      ghost var start := releases;
      var e := 0;
      while e < |entries|
        invariant e <= |entries|
        invariant releases == LoadEntries(start, entries[..e], fromAbbreviation, fromFilename, imageTypeOf)
      {
        assert entries[..e + 1][..e] == entries[..e];
        var loaded := ValidateEntry(entries[e], fromAbbreviation, fromFilename, imageTypeOf);
        if loaded.Some? {
          releases := ApplyToAll(releases, loaded.value);
        }
        e := e + 1;
      }
      assert entries[..e] == entries;
      LoadEntriesKeepsRows(start, entries, fromAbbreviation, fromFilename, imageTypeOf);
    }

    /** `setFilterArchitecture`: only when the new value differs and the CURRENT one is
        a valid architecture index; then every release proposes its first variant of
        the new architecture as its selection. */
    method SetFilterArchitecture(o: int)
      modifies this`filterArchitecture, this`releases
      ensures old(filterArchitecture != o && 0 <= filterArchitecture < archCount) ==>
        filterArchitecture == o && |releases| == |old(releases)|
        && forall i :: 0 <= i < |releases| ==> releases[i] == SelectArch(old(releases)[i], o)
      ensures !old(filterArchitecture != o && 0 <= filterArchitecture < archCount) ==>
        filterArchitecture == old(filterArchitecture) && releases == old(releases)
    {
      if filterArchitecture != o && 0 <= filterArchitecture < archCount {
        filterArchitecture := o;
        ghost var before := releases;
        var i := 0;
        while i < |releases|
          invariant filterArchitecture == o
          invariant |releases| == |before|
          invariant i <= |releases|
          invariant forall j :: 0 <= j < i ==> releases[j] == SelectArch(before[j], o)
          invariant forall j :: i <= j < |releases| ==> releases[j] == before[j]
        {
          var variants := releases[i].variants;
          var k := 0;
          while k < |variants| && variants[k].arch != o
            invariant k <= |variants|
            invariant forall j :: 0 <= j < k ==> !ArchIs(o)(variants[j])
          {
            k := k + 1;
          }
          assert k == FirstIndex(variants, ArchIs(o));
          if k < |variants| {
            releases := releases[i := SetSelectedVariantIndex(releases[i], k)];
          }
          i := i + 1;
        }
      }
    }
  }
}
