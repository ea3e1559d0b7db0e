/**
 * Cities and their accounts (apps/cities/models.py): the display names of
 * a city and the balance rules of an account. The balance updates themselves
 * are `Wallet.Deposit` and `Wallet.Withdraw`, which follow `Credit` and `Debit`.
 */
module Cities {
  import opened Wrappers
  import opened Money

  type CityId = nat
  type AccountId = nat

  /** A city; `state` is None when the column is NULL. */
  datatype City = City(id: CityId, name: string, country: string, state: Option<string>, isActive: bool)

  /** A state is used only when it is set and not blank. */
  predicate HasState(c: City)
  {
    c.state.Some? && c.state.value != ""
  }

  /** `full_name`: `name, state, country`, or `name, country` without a state. */
  function CityFullName(c: City): (r: string)
    ensures HasState(c) ==> r == c.name + ", " + c.state.value + ", " + c.country
    ensures !HasState(c) ==> r == c.name + ", " + c.country
    ensures r[..|c.name|] == c.name && |r| > |c.name| + 1 && r[|c.name|..|c.name| + 2] == ", "
  {
    if HasState(c) then c.name + ", " + c.state.value + ", " + c.country
    else c.name + ", " + c.country
  }

  /** `__str__`: the name followed by the state, or by the country when there is no state. */
  function CityLabel(c: City): (r: string)
    ensures r == c.name + ", " + (if HasState(c) then c.state.value else c.country)
    ensures !HasState(c) ==> r == CityFullName(c)
  {
    c.name + ", " + (if HasState(c) then c.state.value else c.country)
  }

  datatype Account = Account(id: AccountId, city: CityId, name: string, balance: Cents, currency: string, isActive: bool)

  /** `can_withdraw`: the balance covers the amount. */
  predicate CanWithdraw(a: Account, amount: Cents)
  {
    a.balance >= amount
  }

  /** The account after `deposit(amount)`. */
  function Credit(a: Account, amount: Cents): (r: Account)
    ensures r.balance - a.balance == amount
    ensures r.(balance := a.balance) == a
  {
    a.(balance := a.balance + amount)
  }

  /** The account after `withdraw(amount)`, and whether the withdrawal went through. */
  function Debit(a: Account, amount: Cents): (r: (Account, bool))
    ensures r.1 <==> CanWithdraw(a, amount)
    ensures r.1 ==> a.balance - r.0.balance == amount && r.0.balance >= 0
    ensures !r.1 ==> r.0 == a
    ensures r.0.(balance := a.balance) == a
  {
    if CanWithdraw(a, amount) then (a.(balance := a.balance - amount), true) else (a, false)
  }

  /** A deposit followed by a withdrawal of the same amount restores the account. */
  lemma DepositThenWithdraw(a: Account, amount: Cents)
    requires a.balance >= 0
    ensures Debit(Credit(a, amount), amount) == (a, true)
  {
  }
}
