/** Accounts at blocked domains, and signing in with somebody else's word (src/server/signin.rs). */
module SignIn {
  import opened Common
  import opened Items
  import opened Text
  import opened Accounts

  // ---- the block list ----

  predicate IsSeparator(c: char) {
    c == ',' || c == ';' || IsSpace(c)
  }

  /** `list.split(..)` on any separator. */
  function Tokens(list: string): (r: seq<string>)
    ensures |r| >= 1
  {
    if list == "" then [""]
    else if IsSeparator(list[0]) then [""] + Tokens(list[1..])
    else PushFront(list[0], Tokens(list[1..]))
  }

  function DropAts(s: string): string {
    if s != "" && s[0] == '@' then DropAts(s[1..]) else s
  }

  function DropWildcards(s: string): string {
    if "*." <= s then DropWildcards(s[2..]) else s
  }

  function DropDots(s: string): (r: string)
    ensures r <= s && (r != "" ==> r[|r| - 1] != '.')
  {
    if s != "" && s[|s| - 1] == '.' then DropDots(s[..|s| - 1]) else s
  }

  /** A domain as it is compared. */
  function ListedDomain(token: string): string {
    LowerAscii(DropDots(DropWildcards(DropAts(Trim(token)))))
  }

  function DomainOf(email: string): Option<string> {
    match RSplitOnce(Trim(email), '@')
    case None => None
    case Some(parts) => Some(LowerAscii(DropDots(parts.1)))
  }

  predicate Covers(d: string, domain: string) {
    domain == d || EndsWith(domain, "." + d)
  }

  predicate DomainListed(email: string, list: string) {
    match DomainOf(email)
    case None => false
    case Some(domain) =>
      exists token | token in Tokens(list) :: ListedDomain(token) != "" && Covers(ListedDomain(token), domain)
  }

  /** The dot-separated labels of a domain. */
  function Labels(domain: string): seq<string> {
    Split(domain, '.')
  }

  predicate IsSuffix(a: seq<string>, b: seq<string>) {
    |a| <= |b| && b[|b| - |a|..] == a
  }

  /** A domain covers another iff its labels are the last labels of the other. */
  lemma CoversIffLabelSuffix(d: string, domain: string)
    ensures Covers(d, domain) <==> IsSuffix(Labels(d), Labels(domain))
  {
    if EndsWith(domain, "." + d) {
      var head := domain[..|domain| - |d| - 1];
      assert domain == head + ['.'] + d by {
        assert domain == head + domain[|domain| - |d| - 1..];
        assert "." + d == ['.'] + d;
      }
      SplitConcat(head, d, '.');
      assert (Labels(head) + Labels(d))[|Labels(head)|..] == Labels(d);
    }
    if IsSuffix(Labels(d), Labels(domain)) {
      LabelSuffixCovers(d, domain);
    }
  }

  lemma LabelSuffixCovers(d: string, domain: string)
    requires IsSuffix(Labels(d), Labels(domain))
    ensures Covers(d, domain)
  {
    hide Split, Join;
    var a, b := Labels(d), Labels(domain);
    JoinSplit(d, '.');
    JoinSplit(domain, '.');
    if |a| == |b| {
      assert a == b;
    } else {
      var head := b[..|b| - |a|];
      assert b == head + a;
      JoinConcat(head, a, '.');
      assert domain == Join(head, '.') + ['.'] + d;
      assert domain[|Join(head, '.')|..] == "." + d;
    }
  }

  /**
   * An address is blocked iff it has a domain and the labels of some listed domain are the last labels
   * of that domain: the domain itself and everything under it, and nothing that merely ends alike.
   */
  lemma BlockedIffLabelSuffix(email: string, list: string)
    ensures DomainListed(email, list) <==>
            && DomainOf(email).Some?
            && exists token | token in Tokens(list) ::
                 ListedDomain(token) != "" && IsSuffix(Labels(ListedDomain(token)), Labels(DomainOf(email).value))
  {
    hide Labels, Covers, ListedDomain, IsSuffix;
    if DomainOf(email).Some? {
      forall token | token in Tokens(list)
        ensures Covers(ListedDomain(token), DomainOf(email).value) <==>
                IsSuffix(Labels(ListedDomain(token)), Labels(DomainOf(email).value))
      {
        CoversIffLabelSuffix(ListedDomain(token), DomainOf(email).value);
      }
    }
  }

  // ---- what lists block, in their own words ----

  /** A domain as it is written: no separators, no marks around it. */
  predicate IsPlain(d: string) {
    d != "" && (forall c | c in d :: c != '@' && c != '*' && !IsSeparator(c)) && d[|d| - 1] != '.'
  }

  predicate AllDots(s: string) {
    forall i | 0 <= i < |s| :: s[i] == '.'
  }

  lemma {:induction false} DotsDrop(d: string, dots: string)
    requires AllDots(dots) && (d != "" ==> d[|d| - 1] != '.')
    ensures DropDots(d + dots) == d
  {
    if dots == "" {
      assert d + dots == d;
    } else {
      assert (d + dots)[..|d + dots| - 1] == d + dots[..|dots| - 1];
      DotsDrop(d, dots[..|dots| - 1]);
    }
  }

  lemma PrefixDrops(prefix: string, rest: string)
    requires prefix in ["", "@", "*.", "@*."] && rest != "" && rest[0] != '@' && rest[0] != '*'
    ensures DropWildcards(DropAts(prefix + rest)) == rest
  {
    hide DropAts, DropWildcards;
    PlainStays(rest);
    WildcardDrops(rest);
    AtDrops(rest);
    AtDrops("*." + rest);
    assert "" + rest == rest && "@*." + rest == "@" + ("*." + rest);
  }

  lemma PlainStays(rest: string)
    requires rest != "" && rest[0] != '@' && rest[0] != '*'
    ensures DropAts(rest) == rest && DropWildcards(rest) == rest
  {
    assert "*."[0] == '*';
  }

  lemma WildcardDrops(rest: string)
    requires DropWildcards(rest) == rest
    ensures DropAts("*." + rest) == "*." + rest && DropWildcards("*." + rest) == rest
  {
    assert ("*." + rest)[0] == '*' && ("*." + rest)[2..] == rest;
  }

  lemma AtDrops(rest: string)
    ensures DropAts("@" + rest) == DropAts(rest)
  {
    assert ("@" + rest)[1..] == rest;
  }

  /** However a list writes a plain domain, it means the domain. */
  lemma WrittenDomainIs(prefix: string, d: string, dots: string)
    requires prefix in ["", "@", "*.", "@*."] && IsPlain(d) && AllDots(dots)
    ensures ListedDomain(prefix + d + dots) == LowerAscii(d)
  {
    hide LowerAscii, DropDots, DropAts, DropWildcards, Trim;
    var token, rest := prefix + d + dots, d + dots;
    assert d[0] in d && d[|d| - 1] in d;
    assert token[|token| - 1] == if dots == "" then d[|d| - 1] else dots[|dots| - 1];
    assert dots != "" ==> dots[|dots| - 1] in dots;
    TrimFixed(token);
    assert token == prefix + rest && rest[0] == d[0];
    PrefixDrops(prefix, rest);
    DotsDrop(d, dots);
  }

  lemma {:induction false} TokenInside(before: string, token: string, after: string)
    requires forall c | c in token :: !IsSeparator(c)
    requires before != "" ==> IsSeparator(before[|before| - 1])
    requires after != "" ==> IsSeparator(after[0])
    ensures token in Tokens(before + token + after)
  {
    if before == "" {
      assert before + token + after == token + after;
      TokenFirst(token, after);
    } else {
      var list := before + token + after;
      assert list[1..] == before[1..] + token + after;
      TokenInside(before[1..], token, after);
      if !IsSeparator(list[0]) {
        assert |before| > 1;
        LaterToken(before[1..], token, after);
      }
    }
  }

  lemma {:induction false} TokenFirst(token: string, after: string)
    requires (forall c | c in token :: !IsSeparator(c)) && (after != "" ==> IsSeparator(after[0]))
    ensures Tokens(token + after)[0] == token
  {
    if token == "" {
      assert token + after == after;
    } else {
      assert (token + after)[1..] == token[1..] + after && token[0] in token;
      TokenFirst(token[1..], after);
      assert token == [token[0]] + token[1..];
    }
  }

  /** A token that is not the first is among the rest. */
  lemma {:induction false} LaterToken(before: string, token: string, after: string)
    requires forall c | c in token :: !IsSeparator(c)
    requires before != "" && IsSeparator(before[|before| - 1]) && (after != "" ==> IsSeparator(after[0]))
    ensures token in Tokens(before + token + after)[1..]
  {
    var list := before + token + after;
    assert list[1..] == before[1..] + token + after;
    if IsSeparator(before[0]) {
      TokenInside(before[1..], token, after);
    } else {
      assert |before| > 1;
      LaterToken(before[1..], token, after);
    }
  }

  lemma {:induction false} LastAt(local: string, domain: string)
    requires '@' !in domain
    ensures RSplitOnce(local + ['@'] + domain, '@') == Some((local, domain))
  {
    var email := local + ['@'] + domain;
    if domain == "" {
      assert email[..|email| - 1] == local;
    } else {
      assert email[..|email| - 1] == local + ['@'] + domain[..|domain| - 1];
      assert domain[|domain| - 1] in domain;
      LastAt(local, domain[..|domain| - 1]);
      assert domain == domain[..|domain| - 1] + [domain[|domain| - 1]];
    }
  }

  /** The domain of an address is what follows its last "@", without trailing dots, in lower case. */
  lemma DomainIs(local: string, domain: string, dots: string)
    requires IsPlain(domain) && AllDots(dots) && (local != "" ==> !IsSpace(local[0]))
    ensures DomainOf(local + ['@'] + domain + dots) == Some(LowerAscii(domain))
  {
    hide LowerAscii, DropDots, RSplitOnce, Trim;
    var email := local + ['@'] + domain + dots;
    assert email == local + ['@'] + (domain + dots);
    assert domain[|domain| - 1] in domain && (dots != "" ==> dots[|dots| - 1] in dots);
    assert email[|email| - 1] == if dots != "" then dots[|dots| - 1] else domain[|domain| - 1];
    TrimFixed(email);
    assert '@' !in domain + dots;
    LastAt(local, domain + dots);
    DotsDrop(domain, dots);
  }

  /** The address is at the domain or at one under it, in any casing. */
  predicate IsUnder(domain: string, d: string) {
    || LowerAscii(domain) == LowerAscii(d)
    || (|domain| > |d| && domain[|domain| - |d| - 1] == '.' && LowerAscii(domain[|domain| - |d|..]) == LowerAscii(d))
  }

  lemma UnderIsCovered(domain: string, d: string)
    ensures IsUnder(domain, d) <==> Covers(LowerAscii(d), LowerAscii(domain))
  {
    var low, lowD := LowerAscii(domain), LowerAscii(d);
    if |domain| > |d| {
      var tail := domain[|domain| - |d|..];
      assert LowerAscii(tail) == low[|low| - |lowD|..];
      assert low[|low| - |lowD| - 1..] == [low[|low| - |lowD| - 1]] + low[|low| - |lowD|..];
      assert low[|low| - |lowD| - 1] == LowerAsciiChar(domain[|domain| - |d| - 1]);
      assert ("." + lowD)[1..] == lowD;
    }
  }

  /**
   * A list that names a domain blocks every address at it or under it: in any casing, with or without a
   * leading "@" or "*." and trailing dots, wherever it stands between separators.
   */
  lemma NamedDomainIsBlocked(
    before: string, prefix: string, d: string, dots: string, after: string, local: string, domain: string, more: string)
    requires before != "" ==> IsSeparator(before[|before| - 1])
    requires after != "" ==> IsSeparator(after[0])
    requires prefix in ["", "@", "*.", "@*."] && IsPlain(d) && AllDots(dots)
    requires IsPlain(domain) && AllDots(more) && (local != "" ==> !IsSpace(local[0])) && IsUnder(domain, d)
    ensures DomainListed(local + ['@'] + domain + more, before + (prefix + d + dots) + after)
  {
    hide Tokens, ListedDomain, DomainOf, Covers, IsUnder, LowerAscii;
    var token := prefix + d + dots;
    WrittenDomainIs(prefix, d, dots);
    DomainIs(local, domain, more);
    UnderIsCovered(domain, d);
    assert forall c | c in token :: c in prefix || c in d || c in dots;
    TokenInside(before, token, after);
    assert |LowerAscii(d)| == |d| > 0;
  }

  /** And a list of one domain blocks no other address. */
  lemma OneDomainBlocksIff(d: string, local: string, domain: string)
    requires IsPlain(d) && IsPlain(domain) && (local != "" ==> !IsSpace(local[0]))
    ensures DomainListed(local + ['@'] + domain, d) <==> IsUnder(domain, d)
  {
    hide Tokens, ListedDomain, DomainOf, Covers, IsUnder, LowerAscii;
    assert "" + d + "" == d && local + ['@'] + domain + "" == local + ['@'] + domain;
    WrittenDomainIs("", d, "");
    DomainIs(local, domain, "");
    UnderIsCovered(domain, d);
    OneToken(d);
    assert |LowerAscii(d)| == |d| > 0;
  }

  lemma {:induction false} OneToken(d: string)
    requires forall c | c in d :: !IsSeparator(c)
    ensures Tokens(d) == [d]
  {
    if d != "" {
      assert d[0] in d;
      OneToken(d[1..]);
      assert d == [d[0]] + d[1..];
    }
  }

  // ---- identities vouched for elsewhere ----

  datatype Refusal = Unverified | RegistrationClosed | Inactive | Mismatched

  datatype Resolution = EnterAs(id: u64) | Create | Refuse(why: Refusal)

  /** Who somebody else says is signing in. */
  datatype Identity = Identity(email: string, verified: bool, subject: string)

  function ResolveIdentity(existing: Option<Item>, who: Identity, key: string, open: bool): Resolution {
    if Trim(who.email) == "" || !who.verified then Refuse(Unverified)
    else if existing.None? then (if open then Create else Refuse(RegistrationClosed))
    else
      var u := existing.value;
      if !EqIgnoreAsciiCase(Trim(SafeStr(u, "email")), Trim(who.email)) then Refuse(Mismatched)
      else if !IsActive(u) then Refuse(Refusal.Inactive)
      else if SafeStr(u, key) != "" && SafeStr(u, key) != who.subject then Refuse(Mismatched)
      else EnterAs(u.id)
  }

  /**
   * Who enters a record: whoever is vouched for under the address the record itself holds, up to case, by
   * the subject it is linked to if it is linked, as long as it is active. Who gets a new one: whoever is
   * vouched for where there is none, while registration is open.
   */
  lemma IdentityEntersIff(existing: Option<Item>, who: Identity, key: string, open: bool)
    ensures var r := ResolveIdentity(existing, who, key, open);
            && (r.EnterAs? <==>
                  existing.Some? && who.verified && Trim(who.email) != "" &&
                  var u := existing.value;
                  && "email" in u.strs && LowerAscii(Trim(u.strs["email"])) == LowerAscii(Trim(who.email))
                  && "role_is_active" in u.bools && u.bools["role_is_active"]
                  && (key !in u.strs || u.strs[key] == "" || u.strs[key] == who.subject))
            && (r.EnterAs? ==> r.id == existing.value.id)
            && (r.Create? <==> existing == None && who.verified && Trim(who.email) != "" && open)
            && (r == Refuse(Unverified) <==> !who.verified || Trim(who.email) == "")
            && (r == Refuse(RegistrationClosed) <==> existing == None && who.verified && Trim(who.email) != "" && !open)
  {
    hide LowerAscii;
    assert Trim("") == "";
    hide Trim;
    if existing.Some? && "email" !in existing.value.strs && Trim(who.email) != "" {
      assert |LowerAscii(Trim(who.email))| > 0 by { LowerAsciiSize(Trim(who.email)); LowerAsciiSize(""); }
    }
  }

  lemma LowerAsciiSize(s: string)
    ensures |LowerAscii(s)| == |s|
  {
  }

  /** One sign-in attempt with the record that the lookup by address finds. */
  datatype Entry = Entry(found: u64, who: Identity, wrote: bool)

  predicate Admits(users: Users, e: Entry, key: string) {
    e.found in users && ResolveIdentity(Some(users[e.found]), e.who, key, false).EnterAs?
  }

  function Enter(users: Users, e: Entry, key: string): Users {
    if Admits(users, e, key) then Written(users, Link(users[e.found].id, key, e.who.subject), true, e.wrote)
    else users
  }

  function EnterAll(users: Users, es: seq<Entry>, key: string): Users
    decreases |es|
  {
    if es == [] then users else EnterAll(Enter(users, es[0], key), es[1..], key)
  }

  /** Entering a record links it to the subject and notes that somebody has signed in; nothing else changes. */
  lemma EntryIs(users: Users, e: Entry, key: string)
    requires Admits(users, e, key) && users[e.found].id == e.found
    ensures var u := users[e.found];
            Enter(users, e, key) ==
            if e.wrote
            then users[e.found := u.(strs := u.strs[key := e.who.subject], bools := u.bools["logged_once" := true])]
            else users
  {
    hide ResolveIdentity;
    var u, link := users[e.found], Link(e.found, key, e.who.subject);
    assert Scrubbed(link) == link;
    assert u.strs + link.strs == u.strs[key := e.who.subject];
    assert u.bools + link.bools == u.bools["logged_once" := true];
    assert u.u64s + link.u64s == u.u64s && u.ids + link.ids == u.ids;
    assert u.strstrs + link.strstrs == u.strstrs && u.strids + link.strids == u.strids;
  }

  ghost predicate KeyedUsers(users: Users) {
    forall id | id in users :: users[id].id == id
  }

  lemma EnterKeepsLink(users: Users, e: Entry, key: string, id: u64)
    requires KeyedUsers(users) && id in users && SafeStr(users[id], key) != ""
    ensures var t := Enter(users, e, key);
            KeyedUsers(t) && id in t && SafeStr(t[id], key) == SafeStr(users[id], key)
  {
  }

  lemma {:induction false} LinkLasts(users: Users, es: seq<Entry>, key: string, id: u64)
    requires KeyedUsers(users) && id in users && SafeStr(users[id], key) != ""
    ensures var t := EnterAll(users, es, key);
            KeyedUsers(t) && id in t && SafeStr(t[id], key) == SafeStr(users[id], key)
    decreases |es|
  {
    if es != [] {
      EnterKeepsLink(users, es[0], key, id);
      LinkLasts(Enter(users, es[0], key), es[1..], key, id);
    }
  }

  /**
   * Once a record has been entered by one identity of a source, no other identity of that source
   * enters it, whoever tries in between: an address that changes hands cannot pick the record up.
   */
  lemma OneSubjectPerRecord(users: Users, first: Entry, between: seq<Entry>, second: Entry, key: string)
    requires KeyedUsers(users)
    requires Admits(users, first, key) && first.wrote && first.who.subject != ""
    requires second.found == first.found
    requires Admits(EnterAll(Enter(users, first, key), between, key), second, key)
    ensures second.who.subject == first.who.subject
  {
    hide Trim, EqIgnoreAsciiCase;
    var t := Enter(users, first, key);
    assert SafeStr(t[first.found], key) == first.who.subject;
    assert KeyedUsers(t);
    LinkLasts(t, between, key, first.found);
  }

  /** The same active account under the same address. */
  predicate SameHolder(u: Item, v: Item) {
    SafeStr(u, "email") == SafeStr(v, "email") && IsActive(u) == IsActive(v)
  }

  lemma EnterKeepsHolder(users: Users, e: Entry, key: string, id: u64)
    requires KeyedUsers(users) && id in users && key != "email"
    ensures var t := Enter(users, e, key); KeyedUsers(t) && id in t && SameHolder(users[id], t[id])
  {
    hide ResolveIdentity, Written, SameHolder;
    if Admits(users, e, key) {
      LinkKeepsHolder(users, e, key, id);
    } else {
      SameHolderTwice(users[id], users[id], users[id]);
    }
  }

  lemma LinkKeepsHolder(users: Users, e: Entry, key: string, id: u64)
    requires KeyedUsers(users) && id in users && e.found in users && key != "email"
    ensures var t := Written(users, Link(users[e.found].id, key, e.who.subject), true, e.wrote);
            KeyedUsers(t) && id in t && SameHolder(users[id], t[id])
  {
  }

  lemma {:induction false} HolderLasts(users: Users, es: seq<Entry>, key: string, id: u64)
    requires KeyedUsers(users) && id in users && key != "email"
    ensures var t := EnterAll(users, es, key); KeyedUsers(t) && id in t && SameHolder(users[id], t[id])
    decreases |es|
  {
    hide SameHolder, Enter;
    if es == [] {
      SameHolderTwice(users[id], users[id], users[id]);
    } else {
      EnterKeepsHolder(users, es[0], key, id);
      var t := Enter(users, es[0], key);
      HolderLasts(t, es[1..], key, id);
      SameHolderTwice(users[id], t[id], EnterAll(users, es, key)[id]);
    }
  }

  lemma SameHolderTwice(u: Item, v: Item, w: Item)
    ensures SameHolder(u, u) && (SameHolder(u, v) && SameHolder(v, w) ==> SameHolder(u, w))
  {
  }

  /**
   * Who enters a record after its first sign-in, whatever sign-ins were tried in between: exactly whoever
   * is vouched for under the same address, up to case, by the same subject. So nobody else gets in, and
   * nobody can lock the owner out.
   */
  lemma EnteredAgainIff(users: Users, first: Entry, between: seq<Entry>, second: Entry, key: string)
    requires KeyedUsers(users) && key != "email" && second.found == first.found
    requires Admits(users, first, key) && first.wrote && first.who.subject != ""
    ensures Admits(EnterAll(Enter(users, first, key), between, key), second, key) <==>
            && second.who.verified && Trim(second.who.email) != ""
            && EqIgnoreAsciiCase(Trim(second.who.email), Trim(first.who.email))
            && second.who.subject == first.who.subject
  {
    hide Trim, LowerAscii;
    var id := first.found;
    var t := Enter(users, first, key);
    EnterKeepsHolder(users, first, key, id);
    assert SafeStr(t[id], key) == first.who.subject;
    LinkLasts(t, between, key, id);
    HolderLasts(t, between, key, id);
  }
}
