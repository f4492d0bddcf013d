/** The disposable-e-mail check of helper.go: a package-wide `collection` whose
    set of domains is filled once from the list `DisposableDomains`, and the two
    lookups built on it. The list itself is not part of this model; it is the
    constructor's parameter. */
module Domains {
  import opened StringOps
  import opened Optional

  /** The set of the strings in a list. */
  function ListSet(list: seq<string>): (s: set<string>)
    ensures forall d :: d in s <==> d in list
  {
    set d | d in list
  }

  /** The form a domain is looked up in: trimmed of white space, then lower-cased. */
  function Normalize(domain: string): string {
    ToLower(TrimSpace(domain))
  }

  /** The second part of `strings.SplitN(email, "@", 2)`: what follows the first
      `@`, or None when there is no `@`. */
  function AfterFirstAt(email: string): (domain: Option<string>)
    ensures domain.None? <==> '@' !in email
    ensures domain.Some? ==> exists i :: (0 <= i < |email| && email[i] == '@'
                                         && '@' !in email[..i] && domain.value == email[i + 1..])
  {
    var i := IndexOf(email, "@");
    IndexOfFirst(email, "@");
    AtOccurrence(email);
    if i < 0 then None
    else
      assert '@' !in email[..i] by {
        forall j | 0 <= j < i ensures email[j] != '@' {
          assert !OccursAt(email, "@", j);
        }
      }
      Some(email[i + 1..])
  }

  /** An occurrence of the one-rune string "@" is an `@` rune. */
  lemma AtOccurrence(email: string)
    ensures forall j :: 0 <= j < |email| ==> (OccursAt(email, "@", j) <==> email[j] == '@')
    ensures forall j :: OccursAt(email, "@", j) ==> 0 <= j < |email|
  {
    forall j | 0 <= j < |email|
      ensures OccursAt(email, "@", j) <==> email[j] == '@'
    {
      assert email[j..j + 1] == [email[j]];
    }
  }

  /** The domain `domain` is listed in `domains` once normalized. */
  predicate DomainListed(domains: set<string>, domain: string) {
    Normalize(domain) in domains
  }

  /** The e-mail has an `@` and what follows its first `@` is a listed domain. */
  predicate EmailListed(domains: set<string>, email: string) {
    match AfterFirstAt(email)
    case None => false
    case Some(domain) => DomainListed(domains, domain)
  }

  class Collection {
    /** `DisposableDomains`, the list the set is filled from. */
    const disposable: seq<string>
    /** `items`: the set of disposable domains once loaded. */
    var items: set<string>
    /** `err`: never assigned by the loader, so it stays nil. */
    var failed: bool
    /** The `sync.Once` flag: whether the loader has run. */
    var loaded: bool

    ghost predicate Valid()
      reads this
    {
      !failed && (loaded ==> items == ListSet(disposable))
    }

    /** `new(collection)` with the domain list it will be loaded from. */
    constructor (disposable: seq<string>)
      ensures Valid() && this.disposable == disposable
      ensures items == {} && !loaded
    {
      this.disposable := disposable;
      items := {};
      failed := false;
      loaded := false;
    }

    /** `loadDomainList`: reset `items` and add every listed domain. */
    method LoadDomainList()
      modifies this`items
      ensures items == ListSet(disposable)
    {
      items := {};
      var i := 0;
      while i < |disposable|
        invariant 0 <= i <= |disposable|
        invariant items == ListSet(disposable[..i])
      {
        assert disposable[..i + 1] == disposable[..i] + [disposable[i]];
        items := items + {disposable[i]};
        i := i + 1;
      }
      assert disposable[..i] == disposable;
    }

    /** `hasValidDomain`: whether `item` is in the loaded set. */
    predicate HasValidDomain(item: string)
      reads this
      requires Valid() && loaded
      ensures HasValidDomain(item) <==> item in disposable
    {
      item in items
    }

    /** `once.Do(loadDomainList)`: load on the first call only. */
    method LoadOnce()
      requires Valid()
      modifies this`items, this`loaded
      ensures Valid() && loaded
      ensures old(loaded) ==> items == old(items)
    {
      if !loaded {
        LoadDomainList();
        loaded := true;
      }
    }

    /** `IsDisabledDomain`: after the one-time load, whether the trimmed and
        lower-cased domain is a listed disposable domain. */
    method IsDisabledDomain(domain: string) returns (disabled: bool)
      requires Valid()
      modifies this`items, this`loaded
      ensures Valid() && loaded
      ensures disabled == DomainListed(ListSet(disposable), domain)
    {
      LoadOnce();
      if failed {
        return false;
      }
      var trimmed := TrimSpace(domain);
      disabled := HasValidDomain(ToLower(trimmed));
    }

    /** `IsDisabledEmail`: false without an `@`; otherwise whether the text after
        the first `@` is a disabled domain. */
    method IsDisabledEmail(email: string) returns (disabled: bool)
      requires Valid()
      modifies this`items, this`loaded
      ensures Valid() && ('@' in email ==> loaded)
      ensures '@' !in email ==> unchanged(this)
      ensures disabled == EmailListed(ListSet(disposable), email)
    {
      var parts := AfterFirstAt(email);
      if parts.None? {
        return false;
      }
      disabled := IsDisabledDomain(parts.value);
    }
  }

  /** Normalizing twice is normalizing once. */
  lemma NormalizeIdempotent(domain: string)
    ensures Normalize(Normalize(domain)) == Normalize(domain)
  {
    var t := TrimSpace(domain);
    TrimSpaceTrimmed(domain);
    ToLowerKeepsTrimmed(t);
    TrimSpaceOfTrimmed(ToLower(t));
    ToLowerIdempotent(t);
  }

  /** The lookup ignores case and surrounding white space: a domain and its
      normalized form are listed alike. */
  lemma DomainListedNormalized(domains: set<string>, domain: string)
    ensures DomainListed(domains, Normalize(domain)) == DomainListed(domains, domain)
  {
    NormalizeIdempotent(domain);
  }

  /** Only the first `@` splits: an address `local@domain` whose local part has
      no `@` is checked by `domain`, which may itself contain further `@`s. */
  lemma EmailListedSplitsAtFirstAt(domains: set<string>, local: string, domain: string)
    requires '@' !in local
    ensures EmailListed(domains, local + "@" + domain) == DomainListed(domains, domain)
  {
    var email := local + "@" + domain;
    var r := AfterFirstAt(email);
    assert email[|local|] == '@';
    var i :| 0 <= i < |email| && email[i] == '@' && '@' !in email[..i] && r.value == email[i + 1..];
    assert email[..|local|] == local;
    assert email[..|local| + 1] == local + "@";
    assert i == |local|;
    assert email[i + 1..] == domain;
  }

  /** An address without an `@` is never disabled. */
  lemma EmailWithoutAtNotListed(domains: set<string>, email: string)
    requires '@' !in email
    ensures !EmailListed(domains, email)
  {
  }
}
