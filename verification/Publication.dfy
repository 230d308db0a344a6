/**
 Publication (services/product_service.py, services/profile_service.py,
 repositories/product_visibility.py, core/authorization.py): who may publish, what the public
 sees, and why the two separately written rules agree. One step is one transaction; the
 verification and catalog steps are those of their own modules.
 */
module Publication {
  import opened Common
  import C = Catalog
  import P = PublicCatalog
  import V = SellerVerification

  datatype Profile = Profile(name: Option<string>, city: Option<int>, completed: bool)

  datatype Status = Draft | Published | Paused | Archived

  // `fields` stands for title, description, price and condition together.
  datatype Listing = Listing(seller: int, status: Status, publishedAt: Option<int>, city: int, category: int,
                             fields: int)

  datatype Market = Market(accounts: map<int, V.Account>, attempts: map<int, V.Attempt>, profiles: map<int, Profile>,
                           cities: map<int, bool>, categories: map<int, C.Category>, listings: map<int, Listing>)

  // `valid` is the field validation of ProductCreate, `lifetime` that of a challenge.
  datatype Rules = Rules(valid: int -> bool, lifetime: int)

  datatype Action = Publish | Pause | Archive

  datatype Event =
    | Verification(event: V.Event)
    | Categories(change: C.Change)
    | SetCity(city: int, active: bool)
    | SetAccount(user: int, account: V.Account)
    | EditProfile(user: int, newName: Option<Option<string>>, newHome: Option<Option<int>>)
    | CompleteOnboarding(user: int)
    | CreateListing(user: int, id: int, city: int, category: int, fields: int)
    | EditListing(user: int, id: int, newCity: Option<int>, newCategory: Option<int>, newFields: Option<int>)
    | Transition(user: int, id: int, action: Action, now: int)

  datatype Outcome = Outcome(ok: bool, market: Market)

  /******* Rules on their own *******/

  predicate Active(m: Market, user: int) {
    user in m.accounts && m.accounts[user].active
  }

  // required_onboarding_fields_valid
  predicate RequiredFields(p: Profile) {
    p.name.Some? && 2 <= |p.name.value| <= 50 && p.city.Some?
  }

  predicate ActiveCity(m: Market, city: int) {
    city in m.cities && m.cities[city]
  }

  predicate ActiveCategory(m: Market, category: int) {
    category in m.categories && P.IsPubliclyActive(m.categories[category], P.ParentOf(m.categories, category))
  }

  // lock_verified_seller, then get_completed_for_update
  ghost predicate Eligible(m: Market, user: int) {
    var latest := V.Latest(m.attempts, user);
    && V.Contactable(m.accounts, user)
    && latest.Some? && m.attempts[latest.value].status == V.Verified
    && user in m.profiles && m.profiles[user].completed && RequiredFields(m.profiles[user])
  }

  // The conjuncts of publicly_visible about the seller, with their joins.
  ghost predicate SellerVisible(m: Market, user: int) {
    && user in m.accounts && user in m.profiles
    && m.accounts[user].active && m.accounts[user].email && m.accounts[user].phone
    && V.HasVerified(m.attempts, user)
    && var p := m.profiles[user];
       p.completed && p.name.Some? && 2 <= |p.name.value| <= 50 && p.city.Some?
  }

  // publicly_visible, over a listing joined with seller, profile, city, category and parent
  ghost predicate PubliclyVisible(m: Market, id: int) {
    && id in m.listings
    && var l := m.listings[id];
    && l.status == Published && l.publishedAt.Some?
    && SellerVisible(m, l.seller)
    && l.city in m.cities && m.cities[l.city]
    && l.category in m.categories
    && var c := m.categories[l.category];
    && c.active
    && (c.parent.None? || (c.parent.value in m.categories
        && m.categories[c.parent.value].active && m.categories[c.parent.value].level == 1))
  }

  ghost function Released(m: Market, id: int, now: int): Market
    requires id in m.listings
  {
    var l := m.listings[id];
    m.(listings := m.listings[id :=
        l.(status := Published, publishedAt := if l.publishedAt.None? then Some(Stored(now)) else l.publishedAt)])
  }

  predicate Allowed(action: Action, status: Status) {
    match action
    case Publish => status == Draft || status == Paused
    case Pause => status == Published
    case Archive => status != Archived
  }

  /******* Steps *******/

  function ProfileOf(m: Market, user: int): Profile {
    if user in m.profiles then m.profiles[user] else Profile(None, None, false)
  }

  function Edited(p: Profile, name: Option<Option<string>>, city: Option<Option<int>>): Profile {
    var q := p.(name := if name.Some? then name.value else p.name, city := if city.Some? then city.value else p.city);
    if RequiredFields(q) then q else q.(completed := false)
  }

  ghost function Step(m: Market, rules: Rules, event: Event): Outcome {
    var refused := Outcome(false, m);
    match event
    case Verification(e) =>
      var next := V.Step(m.attempts, rules.lifetime, V.Request(m.accounts, e));
      Outcome(next.ok, m.(attempts := next.rows))
    case Categories(change) =>
      var next := C.Step(m.categories, change);
      Outcome(next.verdict == C.Done, m.(categories := next.rows))
    case SetCity(city, active) => Outcome(true, m.(cities := m.cities[city := active]))
    case SetAccount(user, account) => Outcome(true, m.(accounts := m.accounts[user := account]))
    case EditProfile(user, name, city) =>
      if !Active(m, user) || (city.Some? && city.value.Some? && !ActiveCity(m, city.value.value)) then refused
      else Outcome(true, m.(profiles := m.profiles[user := Edited(ProfileOf(m, user), name, city)]))
    case CompleteOnboarding(user) =>
      var p := ProfileOf(m, user);
      if !Active(m, user) || !RequiredFields(p) || (!p.completed && !ActiveCity(m, p.city.value)) then refused
      else Outcome(true, m.(profiles := m.profiles[user := p.(completed := true)]))
    case CreateListing(user, id, city, category, fields) =>
      if !Eligible(m, user) || !ActiveCity(m, city) || !ActiveCategory(m, category) then refused
      else Outcome(true, m.(listings := m.listings[id := Listing(user, Draft, None, city, category, fields)]))
    case EditListing(user, id, city, category, fields) =>
      if !Eligible(m, user) || id !in m.listings || m.listings[id].seller != user || m.listings[id].status == Archived
         || (city.Some? && !ActiveCity(m, city.value))
         || (category.Some? && !ActiveCategory(m, category.value)) then refused
      else
        var l := m.listings[id];
        Outcome(true, m.(listings := m.listings[id := l.(
          city := if city.Some? then city.value else l.city,
          category := if category.Some? then category.value else l.category,
          fields := if fields.Some? then fields.value else l.fields)]))
    case Transition(user, id, action, now) =>
      if (if action == Publish then !Eligible(m, user) else !Active(m, user)) then refused
      else if id !in m.listings || m.listings[id].seller != user || !Allowed(action, m.listings[id].status) then refused
      else
        var l := m.listings[id];
        if action == Publish then
          if !ActiveCity(m, l.city) || !ActiveCategory(m, l.category) || !rules.valid(l.fields) then refused
          else Outcome(true, Released(m, id, now))
        else
          Outcome(true, m.(listings := m.listings[id := l.(status := if action == Pause then Paused else Archived)]))
  }

  // New rows get ids that are not in use.
  ghost predicate Possible(m: Market, event: Event) {
    match event
    case Verification(e) => V.Possible(m.attempts, e)
    case Categories(change) => C.Possible(m.categories, change)
    case CreateListing(_, id, _, _, _) => id !in m.listings
    case _ => true
  }

  ghost predicate AllPossible(m: Market, rules: Rules, events: seq<Event>)
    decreases |events|
  {
    events != [] ==> Possible(m, events[0]) && AllPossible(Step(m, rules, events[0]).market, rules, events[1..])
  }

  ghost function Run(m: Market, rules: Rules, events: seq<Event>): Market
    decreases |events|
  {
    if events == [] then m else Run(Step(m, rules, events[0]).market, rules, events[1..])
  }

  /******* What every run keeps *******/

  ghost predicate ListingSound(l: Listing) {
    && (l.status == Draft ==> l.publishedAt.None?)
    && (l.status == Published || l.status == Paused ==> l.publishedAt.Some?)
  }

  ghost predicate Sound(m: Market) {
    && V.Sound(m.attempts) && C.Forest(m.categories)
    && (forall u <- m.profiles :: m.profiles[u].completed ==> RequiredFields(m.profiles[u]))
    && (forall id <- m.listings :: ListingSound(m.listings[id]))
  }

  // An archived listing does not change, nor does the time of first publication.
  ghost predicate Settled(before: Market, after: Market) {
    forall id <- before.listings ::
      && id in after.listings && after.listings[id].seller == before.listings[id].seller
      && (before.listings[id].publishedAt.Some? ==> after.listings[id].publishedAt == before.listings[id].publishedAt)
      && (before.listings[id].status == Archived ==> after.listings[id] == before.listings[id])
  }

  lemma StepKeepsSound(m: Market, rules: Rules, event: Event)
    requires Sound(m) && Possible(m, event)
    ensures Sound(Step(m, rules, event).market)
  {
    hide V.Sound, C.Forest, V.Step, C.Step, Eligible, ActiveCategory;
    match event
    case Verification(e) => V.StepKeepsSound(m.attempts, rules.lifetime, V.Request(m.accounts, e));
    case Categories(change) => C.StepKeepsForest(m.categories, change);
    case _ =>
  }

  lemma StepSettles(m: Market, rules: Rules, event: Event)
    requires Sound(m) && Possible(m, event)
    ensures Settled(m, Step(m, rules, event).market)
  {
    hide V.Sound, C.Forest, V.Step, C.Step, Eligible, ActiveCategory;
  }

  lemma {:induction false} RunKeeps(m: Market, rules: Rules, events: seq<Event>)
    requires Sound(m) && AllPossible(m, rules, events)
    ensures Sound(Run(m, rules, events)) && Settled(m, Run(m, rules, events))
    decreases |events|
  {
    if events != [] {
      hide Sound;
      var next := Step(m, rules, events[0]).market;
      StepKeepsSound(m, rules, events[0]);
      StepSettles(m, rules, events[0]);
      RunKeeps(next, rules, events[1..]);
    }
  }

  ghost function Nothing(): Market {
    Market(map[], map[], map[], map[], map[], map[])
  }

  lemma NothingIsSound()
    ensures Sound(Nothing())
  {
  }

  /** From the empty marketplace every run keeps all the invariants together. */
  lemma MarketStaysSound(rules: Rules, events: seq<Event>)
    requires AllPossible(Nothing(), rules, events)
    ensures Sound(Run(Nothing(), rules, events))
  {
    RunKeeps(Nothing(), rules, events);
  }

  /******* The two rules agree *******/

  /** The seller check in Python and the seller part of the SQL predicate decide alike. */
  lemma EligibleIsVisible(m: Market, user: int)
    requires V.Sound(m.attempts)
    ensures Eligible(m, user) <==> SellerVisible(m, user)
  {
    V.VerifiedIsLatest(m.attempts, user);
  }

  /** In a sound market the long predicate is a short one. */
  lemma VisibleIsShort(m: Market, id: int)
    requires Sound(m) && id in m.listings
    ensures var l := m.listings[id];
      PubliclyVisible(m, id) <==>
        && l.status == Published
        && V.Contactable(m.accounts, l.seller)
        && (var latest := V.Latest(m.attempts, l.seller); latest.Some? && m.attempts[latest.value].status == V.Verified)
        && l.seller in m.profiles && m.profiles[l.seller].completed
        && ActiveCity(m, l.city)
        && l.category in m.categories && m.categories[l.category].active
  {
    var l := m.listings[id];
    V.VerifiedIsLatest(m.attempts, l.seller);
    if l.category in m.categories {
      assert C.Placed(m.categories, l.category);
    }
  }

  /**
   A publication goes through exactly if the caller owns the listing, its state and fields
   allow it, and the public predicate holds of the result; so what is published is visible.
   */
  lemma PublishedExactlyIfVisible(m: Market, rules: Rules, user: int, id: int, now: int)
    requires V.Sound(m.attempts)
    ensures var next := Step(m, rules, Transition(user, id, Publish, now));
      && (next.ok <==>
          && id in m.listings && m.listings[id].seller == user
          && (m.listings[id].status == Draft || m.listings[id].status == Paused)
          && rules.valid(m.listings[id].fields)
          && PubliclyVisible(Released(m, id, now), id))
      && (next.ok ==> PubliclyVisible(next.market, id))
  {
    EligibleIsVisible(m, user);
    if id in m.listings {
      assert Released(m, id, now).listings[id].seller == m.listings[id].seller;
    }
  }

  /** Whoever can create a listing with valid fields can publish it at once, and the public sees it. */
  lemma CreateThenPublish(m: Market, rules: Rules, user: int, id: int, city: int, category: int, fields: int, now: int)
    requires V.Sound(m.attempts) && rules.valid(fields)
    ensures var created := Step(m, rules, CreateListing(user, id, city, category, fields));
      created.ok ==>
        var published := Step(created.market, rules, Transition(user, id, Publish, now));
        published.ok && PubliclyVisible(published.market, id)
  {
    var created := Step(m, rules, CreateListing(user, id, city, category, fields));
    if created.ok {
      PublishedExactlyIfVisible(created.market, rules, user, id, now);
      EligibleIsVisible(m, user);
    }
  }

  /** A listing changes its status only by its active seller's own transition: published by a
      publication, paused from published by a pause, archived by an archiving and nothing else. */
  lemma StatusChangesOnlyBy(m: Market, rules: Rules, event: Event, id: int)
    requires Possible(m, event) && id in m.listings
    ensures var next := Step(m, rules, event);
      && id in next.market.listings
      && var before, after := m.listings[id].status, next.market.listings[id].status;
      && (before != after ==> event.Transition? && event.id == id && event.user == m.listings[id].seller && next.ok)
      && (event.Transition? && event.id == id && event.user == m.listings[id].seller && event.action != Publish ==>
            var owner := m.listings[id].seller;
            && (next.ok <==>
                  && owner in m.accounts && m.accounts[owner].active
                  && (if event.action == Pause then before == Published else before != Archived))
            && (next.ok ==> after == if event.action == Pause then Paused else Archived))
      && (event.Transition? && event.id == id && event.action == Publish && next.ok ==> after == Published)
  {
    hide V.Step, C.Step, Eligible, ActiveCategory;
  }

  /** Pausing takes a visible listing out of sight, and publishing it again restores the market. */
  lemma PauseThenPublish(m: Market, rules: Rules, id: int, pausedAt: int, now: int)
    requires Sound(m) && PubliclyVisible(m, id) && rules.valid(m.listings[id].fields)
    ensures var seller := m.listings[id].seller;
      var paused := Step(m, rules, Transition(seller, id, Pause, pausedAt));
      && paused.ok && !PubliclyVisible(paused.market, id)
      && Step(paused.market, rules, Transition(seller, id, Publish, now)) == Outcome(true, m)
  {
    hide C.Forest, V.IsLatest, V.Sound;
    var seller := m.listings[id].seller;
    var paused := Step(m, rules, Transition(seller, id, Pause, pausedAt)).market;
    EligibleIsVisible(m, seller);
    EligibleIsVisible(paused, seller);
    var released := Released(paused, id, now);
    assert released.listings[id] == m.listings[id];
    assert released.listings == m.listings;
  }

  /** An edit is accepted exactly of a listing that is not archived, by its eligible seller, into an
      active city and category; it changes what it names, of this listing, and nothing else. */
  lemma EditExactly(m: Market, rules: Rules, user: int, id: int, city: Option<int>, category: Option<int>,
                    fields: Option<int>)
    requires V.Sound(m.attempts) && C.Forest(m.categories)
    ensures var next := Step(m, rules, EditListing(user, id, city, category, fields));
      && (next.ok <==>
            && SellerVisible(m, user) && id in m.listings && m.listings[id].seller == user
            && m.listings[id].status != Archived
            && (city.Some? ==> city.value in m.cities && m.cities[city.value])
            && (category.Some? ==> category.value in m.categories && m.categories[category.value].active))
      && (!next.ok ==> next.market == m)
      && (next.ok ==>
            var l, edited := m.listings[id], next.market.listings[id];
            && next.market == m.(listings := m.listings[id := edited])
            && edited.(city := l.city, category := l.category, fields := l.fields) == l
            && edited.city == (if city.Some? then city.value else l.city)
            && edited.category == (if category.Some? then category.value else l.category)
            && edited.fields == (if fields.Some? then fields.value else l.fields))
  {
    hide V.Sound, SellerVisible, Eligible;
    EligibleIsVisible(m, user);
    if category.Some? && category.value in m.categories { assert C.Placed(m.categories, category.value); }
  }

  /** A draft is created exactly by an eligible seller in an active city and category. */
  lemma CreateExactly(m: Market, rules: Rules, user: int, id: int, city: int, category: int, fields: int)
    requires V.Sound(m.attempts) && C.Forest(m.categories)
    ensures var next := Step(m, rules, CreateListing(user, id, city, category, fields));
      && (next.ok <==>
            && SellerVisible(m, user) && city in m.cities && m.cities[city]
            && category in m.categories && m.categories[category].active)
      && (!next.ok ==> next.market == m)
      && (next.ok ==> next.market == m.(listings :=
            m.listings[id := Listing(user, Draft, None, city, category, fields)]))
  {
    hide V.Sound, SellerVisible, Eligible;
    EligibleIsVisible(m, user);
    if category in m.categories { assert C.Placed(m.categories, category); }
  }

  // The requests of a verified seller who opens a shop.
  function Opening(user: int, name: string, id: int, city: int, category: int, fields: int, now: int): seq<Event> {
    [EditProfile(user, Some(Some(name)), Some(Some(city))), CompleteOnboarding(user),
     CreateListing(user, id, city, category, fields), Transition(user, id, Publish, now)]
  }

  /** Whatever the profile was before, a reachable verified seller who gives a name and an active city,
      completes onboarding and publishes a valid listing in an active category is seen by the public. */
  lemma VerifiedSellerCanSell(m: Market, rules: Rules, user: int, name: string, id: int, city: int, category: int,
                              fields: int, now: int)
    requires Sound(m) && id !in m.listings && rules.valid(fields) && 2 <= |name| <= 50
    requires V.Contactable(m.accounts, user) && V.HasVerified(m.attempts, user)
    requires ActiveCity(m, city) && category in m.categories && m.categories[category].active
    ensures var end := Run(m, rules, Opening(user, name, id, city, category, fields, now));
      && PubliclyVisible(end, id)
      && end.listings == m.listings[id := Listing(user, Published, Some(Stored(now)), city, category, fields)]
      && end.profiles == m.profiles[user := Profile(Some(name), Some(city), true)]
  {
    hide C.Forest, V.Sound, V.HasVerified, V.IsLatest, Run;
    var events := Opening(user, name, id, city, category, fields, now);
    var named := Step(m, rules, events[0]).market;
    var complete := Step(named, rules, events[1]).market;
    assert complete == m.(profiles := m.profiles[user := Profile(Some(name), Some(city), true)]);
    CreateExactly(complete, rules, user, id, city, category, fields);
    CreateThenPublish(complete, rules, user, id, city, category, fields, now);
    var created := Step(complete, rules, events[2]).market;
    var end := Step(created, rules, events[3]).market;
    FourSteps(m, rules, events, named, complete, created);
  }

  lemma FourSteps(m: Market, rules: Rules, events: seq<Event>, a: Market, b: Market, c: Market)
    requires |events| == 4
    requires Step(m, rules, events[0]).market == a && Step(a, rules, events[1]).market == b
    requires Step(b, rules, events[2]).market == c
    ensures Run(m, rules, events) == Step(c, rules, events[3]).market
  {
    hide Step;
    assert events[1..][1..] == events[2..] && events[2..][1..] == events[3..] && events[3..][1..] == [];
    RunHead(m, rules, events);
    RunHead(a, rules, events[1..]);
    RunHead(b, rules, events[2..]);
    RunHead(c, rules, events[3..]);
  }

  lemma RunHead(m: Market, rules: Rules, events: seq<Event>)
    requires events != []
    ensures Run(m, rules, events) == Run(Step(m, rules, events[0]).market, rules, events[1..])
  {
  }

  /** An archived listing is out of sight for the rest of the run. */
  lemma ArchivedForGood(m: Market, rules: Rules, events: seq<Event>, id: int)
    requires Sound(m) && AllPossible(m, rules, events)
    requires id in m.listings && m.listings[id].status == Archived
    ensures !PubliclyVisible(Run(m, rules, events), id)
  {
    hide Sound;
    RunKeeps(m, rules, events);
  }

  // What can take a visible listing out of sight.
  predicate Hides(m: Market, event: Event, id: int)
    requires id in m.listings && m.listings[id].category in m.categories
  {
    var l := m.listings[id];
    match event
    case SetAccount(user, account) => user == l.seller && !(account.active && account.email && account.phone)
    case EditProfile(user, name, city) =>
      && user == l.seller && (city.Some? && city.value.Some? ==> ActiveCity(m, city.value.value))
      && !RequiredFields(Edited(ProfileOf(m, user), name, city))
    case SetCity(city, active) => city == l.city && !active
    case Categories(change) =>
      change == C.SetActive(m.categories[l.category].slug, false) && !C.HasChildren(m.categories, l.category, true)
    case Transition(user, moved, action, _) => user == l.seller && moved == id && action != Publish
    case _ => false
  }

  // The seller's half of visibility, by steps that change no listing, city or category.
  lemma SellerAfter(m: Market, rules: Rules, event: Event, id: int)
    requires Sound(m) && Possible(m, event) && PubliclyVisible(m, id)
    requires event.Verification? || event.SetAccount? || event.EditProfile? || event.CompleteOnboarding?
    ensures PubliclyVisible(Step(m, rules, event).market, id) <==> !Hides(m, event, id)
  {
    hide V.Sound, C.Forest, V.Step, C.Step, V.IsLatest;
    if event.Verification? {
      V.VerifiedStep(m.attempts, rules.lifetime, V.Request(m.accounts, event.event), m.listings[id].seller);
    }
  }

  lemma CatalogAfter(m: Market, rules: Rules, event: Event, id: int)
    requires Sound(m) && Possible(m, event) && PubliclyVisible(m, id) && (event.Categories? || event.SetCity?)
    ensures PubliclyVisible(Step(m, rules, event).market, id) <==> !Hides(m, event, id)
  {
    var after := Step(m, rules, event).market;
    StepKeepsSound(m, rules, event);
    hide V.Sound, C.Step, V.HasVerified, C.Forest;
    VisibleIsShort(m, id);
    VisibleIsShort(after, id);
    if event.Categories? {
      C.ActiveAfter(m.categories, event.change, m.listings[id].category);
    }
  }

  lemma ListingAfter(m: Market, rules: Rules, event: Event, id: int)
    requires Sound(m) && Possible(m, event) && PubliclyVisible(m, id)
    requires event.CreateListing? || event.EditListing? || event.Transition?
    ensures PubliclyVisible(Step(m, rules, event).market, id) <==> !Hides(m, event, id)
  {
    hide V.Sound, C.Forest, Eligible, V.HasVerified;
  }

  /** Exactly these events hide a visible listing; in particular no verification request and no edit does. */
  lemma HiddenExactlyBy(m: Market, rules: Rules, event: Event, id: int)
    requires Sound(m) && Possible(m, event) && PubliclyVisible(m, id)
    ensures PubliclyVisible(Step(m, rules, event).market, id) <==> !Hides(m, event, id)
  {
    hide Sound, PubliclyVisible, Step;
    match event
    case Categories(_) => CatalogAfter(m, rules, event, id);
    case SetCity(_, _) => CatalogAfter(m, rules, event, id);
    case CreateListing(_, _, _, _, _) => ListingAfter(m, rules, event, id);
    case EditListing(_, _, _, _, _) => ListingAfter(m, rules, event, id);
    case Transition(_, _, _, _) => ListingAfter(m, rules, event, id);
    case _ => SellerAfter(m, rules, event, id);
  }

  // No event of the run is one that hides the listing when it happens.
  ghost predicate Undisturbed(m: Market, rules: Rules, events: seq<Event>, id: int)
    decreases |events|
  {
    events != [] ==>
      && (id in m.listings && m.listings[id].category in m.categories ==> !Hides(m, events[0], id))
      && Undisturbed(Step(m, rules, events[0]).market, rules, events[1..], id)
  }

  /** A published listing stays visible over every run without such an event. */
  lemma {:induction false} StaysVisible(m: Market, rules: Rules, events: seq<Event>, id: int)
    requires Sound(m) && AllPossible(m, rules, events) && PubliclyVisible(m, id) && Undisturbed(m, rules, events, id)
    ensures PubliclyVisible(Run(m, rules, events), id)
    decreases |events|
  {
    if events != [] {
      HiddenExactlyBy(m, rules, events[0], id);
      StepKeepsSound(m, rules, events[0]);
      hide Sound, Step, Hides;
      StaysVisible(Step(m, rules, events[0]).market, rules, events[1..], id);
    }
  }

  class MarketService {
    const rules: Rules
    var market: Market

    constructor (rules: Rules)
      ensures market == Nothing() && Sound(market) && this.rules == rules
    {
      this.rules := rules;
      market := Market(map[], map[], map[], map[], map[], map[]);
      NothingIsSound();
    }

    // ProductService.eligible
    method CheckEligible(user: int) returns (ok: bool)
      ensures ok <==> Eligible(market, user)
    {
      if !V.Contactable(market.accounts, user) {
        return false;
      }
      var latest := V.FindLatest(market.attempts, user);
      if latest.None? || market.attempts[latest.value].status != V.Verified {
        return false;
      }
      return user in market.profiles && market.profiles[user].completed && RequiredFields(market.profiles[user]);
    }

    method Create(user: int, id: int, city: int, category: int, fields: int) returns (ok: bool)
      requires Sound(market) && id !in market.listings
      modifies this
      ensures Sound(market)
      ensures Outcome(ok, market) == Step(old(market), rules, CreateListing(user, id, city, category, fields))
    {
      hide Sound, Eligible, ActiveCategory;
      StepKeepsSound(market, rules, CreateListing(user, id, city, category, fields));
      var eligible := CheckEligible(user);
      if !eligible || !ActiveCity(market, city) || !ActiveCategory(market, category) {
        return false;
      }
      market := market.(listings := market.listings[id := Listing(user, Draft, None, city, category, fields)]);
      return true;
    }

    method Update(user: int, id: int, city: Option<int>, category: Option<int>, fields: Option<int>) returns (ok: bool)
      requires Sound(market)
      modifies this
      ensures Sound(market)
      ensures Outcome(ok, market) == Step(old(market), rules, EditListing(user, id, city, category, fields))
    {
      hide Sound, Eligible, ActiveCategory;
      StepKeepsSound(market, rules, EditListing(user, id, city, category, fields));
      var eligible := CheckEligible(user);
      if !eligible || id !in market.listings || market.listings[id].seller != user
          || market.listings[id].status == Archived {
        return false;
      }
      var row := market.listings[id];
      if city.Some? {
        if !ActiveCity(market, city.value) { return false; }
        row := row.(city := city.value);
      }
      if category.Some? {
        if !ActiveCategory(market, category.value) { return false; }
        row := row.(category := category.value);
      }
      if fields.Some? {
        row := row.(fields := fields.value);
      }
      market := market.(listings := market.listings[id := row]);
      return true;
    }

    method MoveListing(user: int, id: int, action: Action, now: int) returns (ok: bool)
      requires Sound(market)
      modifies this
      ensures Sound(market)
      ensures Outcome(ok, market) == Step(old(market), rules, Transition(user, id, action, now))
      ensures ok && action == Publish ==> PubliclyVisible(market, id)
    {
      StepKeepsSound(market, rules, Transition(user, id, action, now));
      PublishedExactlyIfVisible(market, rules, user, id, now);
      hide Sound, Eligible, ActiveCategory, PubliclyVisible;
      var entitled := Active(market, user);
      if action == Publish {
        entitled := CheckEligible(user);
      }
      if !entitled || id !in market.listings || market.listings[id].seller != user
          || !Allowed(action, market.listings[id].status) {
        return false;
      }
      var row := market.listings[id];
      if action == Publish {
        if !ActiveCity(market, row.city) || !ActiveCategory(market, row.category) || !rules.valid(row.fields) {
          return false;
        }
        row := row.(status := Published);
        if row.publishedAt.None? {
          row := row.(publishedAt := Some(Stored(now)));
        }
      } else {
        row := row.(status := if action == Pause then Paused else Archived);
      }
      market := market.(listings := market.listings[id := row]);
      return true;
    }

    method UpdateProfile(user: int, name: Option<Option<string>>, city: Option<Option<int>>) returns (ok: bool)
      requires Sound(market)
      modifies this
      ensures Sound(market)
      ensures Outcome(ok, market) == Step(old(market), rules, EditProfile(user, name, city))
    {
      hide Sound;
      StepKeepsSound(market, rules, EditProfile(user, name, city));
      if !Active(market, user) {
        return false;
      }
      var profile := ProfileOf(market, user);
      if city.Some? {
        if city.value.Some? && !ActiveCity(market, city.value.value) { return false; }
        profile := profile.(city := city.value);
      }
      if name.Some? {
        profile := profile.(name := name.value);
      }
      if !RequiredFields(profile) {
        profile := profile.(completed := false);
      }
      market := market.(profiles := market.profiles[user := profile]);
      return true;
    }

    method FinishOnboarding(user: int) returns (ok: bool)
      requires Sound(market)
      modifies this
      ensures Sound(market)
      ensures Outcome(ok, market) == Step(old(market), rules, CompleteOnboarding(user))
    {
      hide Sound;
      StepKeepsSound(market, rules, CompleteOnboarding(user));
      if !Active(market, user) {
        return false;
      }
      var profile := ProfileOf(market, user);
      if !RequiredFields(profile) || (!profile.completed && !ActiveCity(market, profile.city.value)) {
        return false;
      }
      market := market.(profiles := market.profiles[user := profile.(completed := true)]);
      return true;
    }
  }
}
