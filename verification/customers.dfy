/** Customer profiles and their single address. */
module Customers {
  import opened Models
  import opened Query

  /** The refusal of a second address. */
  const AddressExistsMessage := "Address already exists for this customer."

  /** `Customer.objects.get(user_id=user)`: the profile of a user account. */
  function FindCustomer(s: Store, user: UserId): (r: Result<CustomerId>)
    ensures r.Ok? ==> r.value in s.customers && s.customers[r.value].user == user
    ensures r.Ok? ==> forall c :: c in s.customers && c < s.nextCustomer && s.customers[c].user == user ==> c == r.value
    ensures r.Err? ==> r.error == NotFound || r.error == MultipleObjectsReturned
    ensures r == Err(NotFound) ==> forall c :: c in s.customers && c < s.nextCustomer ==> s.customers[c].user != user
  {
    var rows := Select(s.customers, s.nextCustomer, (cu: Customer) => cu.user == user);
    if rows == [] then Err(NotFound)
    else if |rows| > 1 then Err(MultipleObjectsReturned)
    else
      assert rows[0] in rows;
      Ok(rows[0])
  }

  /** Under the one-to-one constraint the lookup fails only for a user
      without a profile. */
  lemma FindCustomerExact(s: Store, user: UserId)
    requires Valid(s)
    ensures FindCustomer(s, user).Ok? <==> exists c :: c in s.customers && s.customers[c].user == user
  {
    var rows := Select(s.customers, s.nextCustomer, (cu: Customer) => cu.user == user);
    if c :| c in s.customers && s.customers[c].user == user {
      assert Increasing([c]);
      IncreasingUnique(rows, [c]);
    }
  }

  /** `AddressSerializer.create` as written: the requesting user's id is
      used as a CUSTOMER id, both to look the customer up and to key the
      new address. A second address for that customer is refused. */
  function CreateAddress(s: Store, user: UserId, addr: Address): (r: Reply<()>)
    ensures r.result.Err? ==> r.store == s
    ensures r.result.Ok? <==> user in s.customers && user !in s.addresses
    ensures r.result.Ok? ==> r.store == s.(addresses := s.addresses[user := addr])
  {
    if user !in s.customers then Reply(s, Err(NotFound))
    else if user in s.addresses then Reply(s, Err(Invalid(AddressExistsMessage)))
    else Reply(s.(addresses := s.addresses[user := addr]), Ok(()))
  }

  /** Two profiles whose ids differ from their users' ids: customer 1
      belongs to user 2 and customer 2 to user 3. */
  const TwoProfiles: Store := Empty.(customers := map[1 := Customer(2), 2 := Customer(3)], nextCustomer := 3)

  lemma TwoProfilesLookup()
    ensures Valid(TwoProfiles)
    ensures FindCustomer(TwoProfiles, 2) == Ok(1)
  {
    var rows := Select(TwoProfiles.customers, TwoProfiles.nextCustomer, (cu: Customer) => cu.user == 2);
    assert Increasing([1]);
    IncreasingUnique(rows, [1]);
  }

  /** User 2, whose profile is customer 1, posts an address: it is filed
      under customer 2, the profile of user 3. */
  lemma CreateAddressWrongCustomer()
    ensures var r := CreateAddress(TwoProfiles, 2, Address("p", "c", "s", "d"));
      && Valid(TwoProfiles)
      && FindCustomer(TwoProfiles, 2) == Ok(1)
      && r.result.Ok?
      && r.store.addresses.Keys == {2}
      && r.store.customers[2].user == 3
  {
    TwoProfilesLookup();
  }

  /** Address creation looking the customer up by its user, as intended:
      the address always belongs to the requester's own profile. */
  function CreateAddressForUser(s: Store, user: UserId, addr: Address): (r: Reply<()>)
    ensures r.result.Err? ==> r.store == s
    ensures r.result.Ok? ==> exists c :: (c in s.customers && s.customers[c].user == user
      && c !in s.addresses && r.store == s.(addresses := s.addresses[c := addr]))
  {
    match FindCustomer(s, user)
    case Err(e) => Reply(s, Err(e))
    case Ok(c) =>
      if c in s.addresses then Reply(s, Err(Invalid(AddressExistsMessage)))
      else Reply(s.(addresses := s.addresses[c := addr]), Ok(()))
  }

  /** The intended creation succeeds exactly for a user whose profile has
      no address yet. */
  lemma CreateAddressForUserSucceeds(s: Store, user: UserId, addr: Address)
    requires Valid(s)
    ensures CreateAddressForUser(s, user, addr).result.Ok? <==>
      exists c :: c in s.customers && s.customers[c].user == user && c !in s.addresses
  {
    FindCustomerExact(s, user);
    if c :| c in s.customers && s.customers[c].user == user {
      assert FindCustomer(s, user) == Ok(c);
    }
  }

  lemma CreateAddressForUserPreservesValid(s: Store, user: UserId, addr: Address)
    requires Valid(s)
    ensures Valid(CreateAddressForUser(s, user, addr).store)
  {
  }

  /** Deleting a customer: refused while orders refer to it
      (`on_delete=PROTECT`); its address goes with it (`on_delete=CASCADE`). */
  function DeleteCustomer(s: Store, c: CustomerId): (r: Reply<()>)
    ensures r.result.Err? ==> r.store == s
    ensures r.result == Err(NotFound) <==> c !in s.customers
    ensures r.result == Err(Protected) <==> c in s.customers && exists o :: o in s.orders && s.orders[o].customer == c
    ensures r.result.Ok? <==> c in s.customers && !(exists o :: o in s.orders && s.orders[o].customer == c)
    ensures r.result.Ok? ==> c in s.customers && c !in r.store.customers && c !in r.store.addresses
    ensures r.result.Ok? ==> r.store == s.(customers := s.customers - {c}, addresses := s.addresses - {c})
  {
    if c !in s.customers then Reply(s, Err(NotFound))
    else if exists o :: o in s.orders && s.orders[o].customer == c then Reply(s, Err(Protected))
    else Reply(s.(customers := s.customers - {c}, addresses := s.addresses - {c}), Ok(()))
  }

  lemma DeleteCustomerPreservesValid(s: Store, c: CustomerId)
    requires Valid(s)
    ensures Valid(DeleteCustomer(s, c).store)
  {
  }
}
