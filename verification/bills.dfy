/** The bills and net-worth calculator: a list of named monthly bills, their
    total and what a monthly salary leaves over. Amounts are exact `real`s;
    the parsing of the input boxes happens before this model, an amount that
    parses to NaN arriving as `None`. */
module Bills {
  import opened Wrappers
  import Text

  datatype Bill = Bill(name: string, amount: real)

  /** The three bills the "sample" button appends. */
  const Samples: seq<Bill> := [Bill("Rent", 760.0), Bill("Internet", 40.0), Bill("Electric", 65.0)]

  /** Every amount entered through the "add" or "sample" button is positive. */
  predicate AllPositive(bills: seq<Bill>) {
    forall b :: b in bills ==> b.amount > 0.0
  }

  /** `bills.reduce((s, b) => s + b.amount, 0)`, summed from the left. */
  function Total(bills: seq<Bill>): real
  {
    if bills == [] then 0.0 else Total(bills[..|bills| - 1]) + bills[|bills| - 1].amount
  }

  /** The sum of the amounts, by the first bill and the rest; the reference
      that `Total`'s left fold is proved equal to. */
  function SumRight(bills: seq<Bill>): real
  {
    if bills == [] then 0.0 else bills[0].amount + SumRight(bills[1..])
  }

  lemma {:induction false} TotalConcat(a: seq<Bill>, b: seq<Bill>)
    ensures Total(a + b) == Total(a) + Total(b)
    decreases |b|
  {
    if b == [] {
      assert a + b == a;
    } else {
      assert (a + b)[..|a + b| - 1] == a + b[..|b| - 1];
      TotalConcat(a, b[..|b| - 1]);
    }
  }

  /** Summing from the left and from the right agree. */
  lemma {:induction false} TotalIsSum(bills: seq<Bill>)
    ensures Total(bills) == SumRight(bills)
    decreases |bills|
  {
    if bills != [] {
      assert bills == [bills[0]] + bills[1..];
      TotalConcat([bills[0]], bills[1..]);
      assert Total([bills[0]]) == bills[0].amount by {
        assert [bills[0]][..0] == [];
      }
      TotalIsSum(bills[1..]);
    }
  }

  /** The name a new bill is stored under: the trimmed input, or "Bill" when
      nothing but whitespace was typed. */
  function BillName(input: string): (r: string)
    ensures r != []
    ensures Text.Trim(input) != [] ==> r == Text.Trim(input)
    ensures (forall k :: 0 <= k < |input| ==> Text.IsJsWhitespace(input[k])) ==> r == "Bill"
  {
    var t := Text.Trim(input);
    if t == [] then "Bill" else t
  }

  /** The "add" button: an amount that is NaN or not positive leaves the list
      as it was; otherwise one bill is appended. */
  function AddBill(bills: seq<Bill>, nameInput: string, amount: Option<real>): (r: seq<Bill>)
    ensures amount.None? || amount.value <= 0.0 ==> r == bills
    ensures amount.Some? && amount.value > 0.0 ==>
      |r| == |bills| + 1 && r[..|bills|] == bills
      && r[|bills|] == Bill(BillName(nameInput), amount.value)
    ensures Total(r) == Total(bills) + (if amount.Some? && amount.value > 0.0 then amount.value else 0.0)
    ensures AllPositive(bills) ==> AllPositive(r)
  {
    match amount
    case None => bills
    case Some(a) =>
      if a <= 0.0 then bills
      else
        var r := bills + [Bill(BillName(nameInput), a)];
        assert r[..|r| - 1] == bills;
        r
  }

  /** `bills.splice(idx, 1)` for an integer `idx`: a negative index counts
      from the end (clamped at the first bill) and an index past the end
      removes nothing. */
  function RemoveAt(bills: seq<Bill>, idx: int): (r: seq<Bill>)
    ensures 0 <= idx < |bills| ==> r == bills[..idx] + bills[idx + 1..]
    ensures -|bills| <= idx < 0 ==> r == bills[..|bills| + idx] + bills[|bills| + idx + 1..]
    ensures idx < -|bills| && bills != [] ==> r == bills[1..]
    ensures idx >= |bills| || bills == [] ==> r == bills
    ensures |r| == if bills == [] || idx >= |bills| then |bills| else |bills| - 1
    ensures forall b :: b in r ==> b in bills
  {
    var start := if idx < 0 then (if |bills| + idx < 0 then 0 else |bills| + idx)
                 else (if idx > |bills| then |bills| else idx);
    if start < |bills| then bills[..start] + bills[start + 1..] else bills
  }

  /** Removing the bill at a valid index takes exactly its amount off the total. */
  lemma RemoveLowersTotal(bills: seq<Bill>, i: int)
    requires 0 <= i < |bills|
    ensures Total(RemoveAt(bills, i)) == Total(bills) - bills[i].amount
  {
    TotalSplitAt(bills, i);
    TotalConcat(bills[..i], bills[i + 1..]);
  }

  lemma TotalSplitAt(bills: seq<Bill>, i: int)
    requires 0 <= i < |bills|
    ensures Total(bills) == Total(bills[..i]) + bills[i].amount + Total(bills[i + 1..])
  {
    var pre, post := bills[..i], bills[i + 1..];
    assert bills == pre + [bills[i]] + post;
    TotalConcat(pre + [bills[i]], post);
    assert (pre + [bills[i]])[..|pre|] == pre;
  }

  /** The "clear" button. */
  function Clear(bills: seq<Bill>): (r: seq<Bill>)
    ensures r == [] && Total(r) == 0.0 && AllPositive(r)
  {
    []
  }

  /** The "sample" button: appends Rent, Internet and Electric, 865 in all. */
  function AddSamples(bills: seq<Bill>): (r: seq<Bill>)
    ensures |r| == |bills| + 3 && r[..|bills|] == bills
    ensures r[|bills|..] == [Bill("Rent", 760.0), Bill("Internet", 40.0), Bill("Electric", 65.0)]
    ensures Total(r) == Total(bills) + 865.0
    ensures AllPositive(bills) ==> AllPositive(r)
  {
    var r := bills + Samples;
    TotalConcat(bills, Samples);
    TotalIsSum(Samples);
    assert Samples[1..][1..][1..] == [];
    r
  }

  /** What the salary leaves each month, and over a year. */
  function Disposable(salary: real, bills: seq<Bill>): real {
    salary - Total(bills)
  }

  function DisposableYear(salary: real, bills: seq<Bill>): real {
    Disposable(salary, bills) * 12.0
  }

  /** With positive amounts the total is never negative, so bills can only
      lower what the salary leaves, monthly and yearly. */
  lemma {:induction false} DisposableBounded(salary: real, bills: seq<Bill>)
    requires AllPositive(bills)
    ensures Total(bills) >= 0.0
    ensures bills != [] ==> Total(bills) > 0.0 && Disposable(salary, bills) < salary
    ensures Disposable(salary, bills) <= salary
    ensures DisposableYear(salary, bills) <= salary * 12.0
    decreases |bills|
  {
    if bills != [] {
      assert bills[|bills| - 1] in bills;
      DisposableBounded(salary, bills[..|bills| - 1]);
    }
  }
}
