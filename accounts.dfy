/*
 * Bank accounts with a private balance: guarded deposit and withdraw on the
 * base account, and the withdraw overrides of the checking account
 * (overdraft) and the business account (transaction fee).
 *
 * The base class and its three subclasses become one class whose constant
 * `kind` records which class the account was built as, together with that
 * subclass's own setting; `Withdraw` dispatches on it the way the overrides
 * do. Amounts are whole currency units; interest is reported in cents.
 */
module Accounts {

  datatype AccountKind =
    | Basic
    | SavingsAccount(interestPercent: int)
    | CheckingAccount(overdraftLimit: int)
    | BusinessAccount(transactionFee: int)

  const DefaultInterestPercent: int := 3
  const DefaultOverdraftLimit: int := 100
  const DefaultTransactionFee: int := 2

  // ---------------------------------------------------------------------
  // The balance rules, as functions of the balance before the call
  // ---------------------------------------------------------------------

  /** Base deposit: only a positive amount is credited. */
  function Deposited(balance: int, amount: int): int
  {
    if amount > 0 then balance + amount else balance
  }

  /** Base withdraw: only a positive amount the balance covers is debited. */
  function Withdrawn(balance: int, amount: int): int
  {
    if 0 < amount <= balance then balance - amount else balance
  }

  /**
   * Checking withdraw as written: the overdraft guard passes, and the money
   * is then moved by depositing the negated amount.
   */
  function CheckingWithdrawn(balance: int, amount: int, overdraftLimit: int): (after: int)
    ensures after <= balance
    ensures !(0 < amount <= balance + overdraftLimit) ==> after == balance
  {
    if 0 < amount <= balance + overdraftLimit then Deposited(balance, -amount) else balance
  }

  /** Checking withdraw as evidently intended: the amount is debited, overdraft included. */
  function CheckingWithdrawnIntended(balance: int, amount: int, overdraftLimit: int): int
  {
    if 0 < amount <= balance + overdraftLimit then balance - amount else balance
  }

  /** Business withdraw: the amount plus the fee goes through the base withdraw when the balance covers it. */
  function BusinessWithdrawn(balance: int, amount: int, transactionFee: int): (after: int)
    ensures after <= balance
    ensures amount + transactionFee > balance ==> after == balance
    ensures after != balance ==> balance - after == amount + transactionFee && after >= 0
  {
    if amount + transactionFee <= balance then Withdrawn(balance, amount + transactionFee) else balance
  }

  /**
   * The withdraw that an account of the given kind runs. No withdraw raises
   * the balance; the base rule, which savings inherits, debits exactly an
   * amount the balance covers; as written, checking never debits.
   */
  function WithdrawnFrom(kind: AccountKind, balance: int, amount: int): (after: int)
    ensures after <= balance
    ensures kind.Basic? || kind.SavingsAccount? ==>
      (after != balance <==> 0 < amount <= balance) && (after != balance ==> balance - after == amount)
    ensures kind.CheckingAccount? ==> after == balance
    ensures kind.BusinessAccount? && after != balance ==> balance - after == amount + kind.transactionFee
  {
    match kind
    case CheckingAccount(limit) => CheckingWithdrawn(balance, amount, limit)
    case BusinessAccount(fee) => BusinessWithdrawn(balance, amount, fee)
    case _ => Withdrawn(balance, amount)
  }

  /** The interest rate, in percent, of each kind of account. */
  function InterestPercent(kind: AccountKind): int
  {
    match kind
    case Basic => 0
    case SavingsAccount(percent) => percent
    case CheckingAccount(_) => 1
    case BusinessAccount(_) => 5
  }

  // ---------------------------------------------------------------------
  // Properties of the rules
  // ---------------------------------------------------------------------

  /** A deposit moves the balance exactly when the amount is positive, and then by that amount. */
  lemma DepositCredits(balance: int, amount: int)
    ensures Deposited(balance, amount) != balance <==> amount > 0
    ensures Deposited(balance, amount) >= balance
    ensures amount > 0 ==> Deposited(balance, amount) - balance == amount
  {
  }

  /** A withdraw moves the balance exactly when 0 < amount <= balance, and then by that amount. */
  lemma WithdrawDebits(balance: int, amount: int)
    ensures Withdrawn(balance, amount) != balance <==> 0 < amount <= balance
    ensures Withdrawn(balance, amount) <= balance
    ensures 0 < amount <= balance ==> balance - Withdrawn(balance, amount) == amount
    ensures balance >= 0 ==> Withdrawn(balance, amount) >= 0
  {
  }

  /** Withdrawing what was just deposited restores a non-negative balance. */
  lemma WithdrawUndoesDeposit(balance: int, amount: int)
    requires balance >= 0 && amount > 0
    ensures Withdrawn(Deposited(balance, amount), amount) == balance
  {
  }

  /** As written, a checking withdraw never changes the balance, whatever the overdraft allows. */
  lemma CheckingWithdrawNeverMoves(balance: int, amount: int, overdraftLimit: int)
    ensures CheckingWithdrawn(balance, amount, overdraftLimit) == balance
  {
  }

  /** The withdraw of 600 from 500 with a 200 overdraft: refused as written, a debit to -100 as intended. */
  lemma CheckingOverdraftExample()
    ensures CheckingWithdrawn(500, 600, 200) == 500
    ensures CheckingWithdrawnIntended(500, 600, 200) == -100
  {
  }

  /**
   * The intended checking withdraw debits exactly when the amount is
   * positive and within balance plus overdraft, and never takes the balance
   * below minus the overdraft limit.
   */
  lemma CheckingIntendedWithinOverdraft(balance: int, amount: int, overdraftLimit: int)
    ensures CheckingWithdrawnIntended(balance, amount, overdraftLimit) != balance
            <==> 0 < amount <= balance + overdraftLimit
    ensures 0 < amount <= balance + overdraftLimit ==>
            balance - CheckingWithdrawnIntended(balance, amount, overdraftLimit) == amount
    ensures balance >= -overdraftLimit ==> CheckingWithdrawnIntended(balance, amount, overdraftLimit) >= -overdraftLimit
  {
  }

  /** A business withdraw debits amount plus fee exactly when that sum is positive and covered. */
  lemma BusinessChargesFee(balance: int, amount: int, transactionFee: int)
    ensures var total := amount + transactionFee;
      && (BusinessWithdrawn(balance, amount, transactionFee) != balance <==> 0 < total <= balance)
      && (0 < total <= balance ==> balance - BusinessWithdrawn(balance, amount, transactionFee) == total)
  {
  }

  /** Apart from the checking overdraft, no withdraw or deposit takes a non-negative balance below zero. */
  lemma NonNegativeBalanceStays(kind: AccountKind, balance: int, amount: int)
    requires !kind.CheckingAccount? && balance >= 0
    ensures WithdrawnFrom(kind, balance, amount) >= 0
    ensures Deposited(balance, amount) >= 0
  {
  }

  // ---------------------------------------------------------------------
  // The account object
  // ---------------------------------------------------------------------

  class BankAccount {
    const accountNumber: string
    const holderName: string
    const kind: AccountKind
    var balance: int

    constructor (accountNumber: string, holderName: string, balance: int := 0)
      ensures this.accountNumber == accountNumber && this.holderName == holderName
      ensures kind == Basic && this.balance == balance
    {
      this.accountNumber := accountNumber;
      this.holderName := holderName;
      kind := Basic;
      this.balance := balance;
    }

    constructor Savings(accountNumber: string, holderName: string, balance: int := 0,
                        interestPercent: int := DefaultInterestPercent)
      ensures this.accountNumber == accountNumber && this.holderName == holderName
      ensures kind == SavingsAccount(interestPercent) && this.balance == balance
    {
      this.accountNumber := accountNumber;
      this.holderName := holderName;
      kind := SavingsAccount(interestPercent);
      this.balance := balance;
    }

    constructor Checking(accountNumber: string, holderName: string, balance: int := 0,
                         overdraftLimit: int := DefaultOverdraftLimit)
      ensures this.accountNumber == accountNumber && this.holderName == holderName
      ensures kind == CheckingAccount(overdraftLimit) && this.balance == balance
    {
      this.accountNumber := accountNumber;
      this.holderName := holderName;
      kind := CheckingAccount(overdraftLimit);
      this.balance := balance;
    }

    constructor Business(accountNumber: string, holderName: string, balance: int := 0,
                         transactionFee: int := DefaultTransactionFee)
      ensures this.accountNumber == accountNumber && this.holderName == holderName
      ensures kind == BusinessAccount(transactionFee) && this.balance == balance
    {
      this.accountNumber := accountNumber;
      this.holderName := holderName;
      kind := BusinessAccount(transactionFee);
      this.balance := balance;
    }

    /** The current balance. */
    function GetBalance(): (current: int)
      reads this
      ensures current == balance
    {
      balance
    }

    /** The number fixed when the account was opened; no operation can change it. */
    function GetAccountNumber(): (number: string)
      ensures number == accountNumber
    {
      accountNumber
    }

    method Deposit(amount: int)
      modifies this`balance
      ensures balance == Deposited(old(balance), amount)
    {
      if amount > 0 {
        balance := balance + amount;
      }
    }

    /** The base class's withdraw, which the overrides reach through their parent. */
    method BaseWithdraw(amount: int)
      modifies this`balance
      ensures balance == Withdrawn(old(balance), amount)
    {
      if amount > 0 && amount <= balance {
        balance := balance - amount;
      }
    }

    /** The withdraw of the account's own class. */
    method Withdraw(amount: int)
      modifies this`balance
      ensures balance == WithdrawnFrom(kind, old(balance), amount)
    {
      match kind
      case CheckingAccount(limit) =>
        var availableFunds := GetBalance() + limit;
        if amount > 0 && amount <= availableFunds {
          Deposit(-amount);
        }
      case BusinessAccount(fee) =>
        var totalAmount := amount + fee;
        if totalAmount <= GetBalance() {
          BaseWithdraw(totalAmount);
        }
      case _ =>
        BaseWithdraw(amount);
    }

    /** The checking withdraw with the debit it evidently means to make. */
    method OverdraftWithdraw(amount: int)
      requires kind.CheckingAccount?
      modifies this`balance
      ensures balance == CheckingWithdrawnIntended(old(balance), amount, kind.overdraftLimit)
    {
      var availableFunds := GetBalance() + kind.overdraftLimit;
      if amount > 0 && amount <= availableFunds {
        balance := balance - amount;
      }
    }

    /**
     * The interest on the current balance, in cents: the balance times the
     * account's rate in percent. The base account earns none.
     */
    function CalculateInterest(): (cents: int)
      reads this
      ensures kind == Basic ==> cents == 0
      ensures balance >= 0 && InterestPercent(kind) >= 0 ==> cents >= 0
      ensures balance > 0 && InterestPercent(kind) > 0 ==> cents >= balance
    {
      balance * InterestPercent(kind)
    }
  }

  /**
   * The operations of the demonstration: a deposit of 200 into savings
   * holding 1000, a withdraw of 600 from checking holding 500 with a 200
   * overdraft, and a withdraw of 100 from business holding 5000 with a fee of 5.
   */
  method OperationsDemo() returns (savings: int, checking: int, business: int)
    ensures savings == 1200
    ensures checking == 500
    ensures business == 4895
  {
    var s := new BankAccount.Savings("SAV001", "Alice Johnson", 1000);
    var c := new BankAccount.Checking("CHK001", "Bob Smith", 500, overdraftLimit := 200);
    var b := new BankAccount.Business("BUS001", "Tech Corp", 5000, transactionFee := 5);
    s.Deposit(200);
    c.Withdraw(600);
    b.Withdraw(100);
    savings, checking, business := s.GetBalance(), c.GetBalance(), b.GetBalance();
  }
}
