/**
  Where to watch a movie in Brazil: one section per kind of offer
  (subscription, rental, purchase), each a row of provider logos, or a
  message when nothing is known for the region.
 */
module WatchProviders {
  import opened Wrappers

  datatype Provider = Provider(logoPath: string, providerName: string)

  /** The offers for one region; each kind may be absent. */
  datatype WatchData = WatchData(
    flatrate: Option<seq<Provider>>,
    rent: Option<seq<Provider>>,
    buy: Option<seq<Provider>>)

  /** The `results` object of the catalog's watch-provider response; only the `BR` region is read. */
  datatype Providers = Providers(br: Option<WatchData>)

  /** One logo image: its React key and its address. */
  datatype Logo = Logo(key: string, uri: string)

  datatype ProviderSection = ProviderSection(title: string, logos: seq<Logo>)

  /** What the component renders. */
  datatype View = Unavailable | Container(sections: seq<ProviderSection>)

  const LogoBase: string := "https://image.tmdb.org/t/p/w200/"
  const StreamingTitle: string := "Streaming"
  const RentTitle: string := "Alugar"
  const BuyTitle: string := "Comprar"

  /** `data.map(provider => <Image .../>)`: one logo per provider, in list order. */
  function Logos(data: seq<Provider>): (logos: seq<Logo>)
    ensures |logos| == |data|
    ensures forall i :: 0 <= i < |data| ==>
      logos[i] == Logo(data[i].providerName, LogoBase + data[i].logoPath)
    decreases |data|
  {
    if data == [] then []
    else [Logo(data[0].providerName, LogoBase + data[0].logoPath)] + Logos(data[1..])
  }

  /** A list the section shows: present and non-empty. */
  predicate Shown(data: Option<seq<Provider>>) {
    data.Some? && |data.value| > 0
  }

  /** `ProviderSection`: renders nothing for a missing or empty list. */
  function RenderSection(title: string, data: Option<seq<Provider>>): (section: Option<ProviderSection>)
    ensures section.Some? <==> Shown(data)
    ensures section.Some? ==> section.value.title == title && section.value.logos == Logos(data.value)
  {
    if data.None? || |data.value| == 0 then None
    else Some(ProviderSection(title, Logos(data.value)))
  }

  /** A rendered child: `null` contributes nothing to the container. */
  function Rendered(section: Option<ProviderSection>): seq<ProviderSection> {
    if section.Some? then [section.value] else []
  }

  /** The top-level check: region entry present with at least one of the three lists present (an empty list counts as present). */
  predicate HasAnyList(watchData: Option<WatchData>) {
    watchData.Some? && (watchData.value.flatrate.Some? || watchData.value.rent.Some? || watchData.value.buy.Some?)
  }

  /** The region entry the component reads (`providers?.BR`). */
  function BrazilEntry(providers: Option<Providers>): Option<WatchData> {
    if providers.Some? then providers.value.br else None
  }

  /** The container's children: the three sections in fixed order, each possibly nothing. */
  function Sections(wd: WatchData): seq<ProviderSection> {
    Rendered(RenderSection(StreamingTitle, wd.flatrate))
    + Rendered(RenderSection(RentTitle, wd.rent))
    + Rendered(RenderSection(BuyTitle, wd.buy))
  }

  /** `WatchProviders`: the top-level check, then the container of sections. */
  function Render(providers: Option<Providers>): View {
    var watchData := BrazilEntry(providers);
    if !HasAnyList(watchData) then Unavailable else Container(Sections(watchData.value))
  }

  /** The position of a section title in the fixed order. */
  function Rank(title: string): nat {
    if title == StreamingTitle then 0 else if title == RentTitle then 1 else 2
  }

  predicate HasSection(sections: seq<ProviderSection>, title: string) {
    exists i :: 0 <= i < |sections| && sections[i].title == title
  }

  /**
    The unavailable message is shown exactly when there is no `BR` entry or
    the entry has none of `flatrate`, `rent` and `buy`; otherwise the
    container holds the entry's sections.
   */
  lemma UnavailableIff(providers: Option<Providers>)
    ensures Render(providers) == Unavailable <==>
      BrazilEntry(providers).None? ||
      (var wd := BrazilEntry(providers).value; wd.flatrate.None? && wd.rent.None? && wd.buy.None?)
    ensures Render(providers).Container? ==> Render(providers).sections == Sections(BrazilEntry(providers).value)
  {
  }

  /** Each section appears exactly when its list is present and non-empty. */
  lemma SectionShownIff(wd: WatchData)
    ensures HasSection(Sections(wd), StreamingTitle) == Shown(wd.flatrate)
    ensures HasSection(Sections(wd), RentTitle) == Shown(wd.rent)
    ensures HasSection(Sections(wd), BuyTitle) == Shown(wd.buy)
  {
    var s1 := Rendered(RenderSection(StreamingTitle, wd.flatrate));
    var s2 := Rendered(RenderSection(RentTitle, wd.rent));
    var s3 := Rendered(RenderSection(BuyTitle, wd.buy));
    var sections := Sections(wd);
    if Shown(wd.flatrate) { assert sections[0].title == StreamingTitle; }
    if Shown(wd.rent) { assert sections[|s1|].title == RentTitle; }
    if Shown(wd.buy) { assert sections[|s1| + |s2|].title == BuyTitle; }
  }

  /**
    The sections come in the order Streaming, Alugar, Comprar, none is
    empty, and each shows one logo per provider of its own list.
   */
  lemma SectionsInFixedOrder(wd: WatchData)
    ensures var sections := Sections(wd);
      && (forall i, j :: 0 <= i < j < |sections| ==> Rank(sections[i].title) < Rank(sections[j].title))
      && (forall i :: 0 <= i < |sections| ==> |sections[i].logos| > 0)
      && (forall i :: 0 <= i < |sections| && sections[i].title == StreamingTitle ==> sections[i].logos == Logos(wd.flatrate.value))
      && (forall i :: 0 <= i < |sections| && sections[i].title == RentTitle ==> sections[i].logos == Logos(wd.rent.value))
      && (forall i :: 0 <= i < |sections| && sections[i].title == BuyTitle ==> sections[i].logos == Logos(wd.buy.value))
  {
  }

  /**
    The quirk of the top-level check: an entry whose present lists are all
    empty passes it and renders a container with no sections, not the
    unavailable message.
   */
  lemma AllListsEmptyRendersEmptyContainer(wd: WatchData)
    requires wd.flatrate.Some? || wd.rent.Some? || wd.buy.Some?
    requires wd.flatrate.Some? ==> wd.flatrate.value == []
    requires wd.rent.Some? ==> wd.rent.value == []
    requires wd.buy.Some? ==> wd.buy.value == []
    ensures Render(Some(Providers(Some(wd)))) == Container([])
  {
  }
}
