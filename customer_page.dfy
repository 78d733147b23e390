/**
 * The customer list page: a list loaded once on mount, a view of it
 * narrowed by a case-insensitive search, and a dialog that appends a
 * customer to both.
 */
module CustomerPage {
  import opened Strings

  datatype CustomerData = CustomerData(id: string, name: string, surname: string, phone: string, email: string)

  /** The add-customer form when it is blank. */
  const EmptyCustomer := CustomerData("", "", "", "", "")

  /** The search predicate: the lowercased term occurs in the lowercased name, surname or email. */
  predicate Matches(c: CustomerData, termLower: string): (m: bool)
    ensures termLower == "" ==> m
    ensures m ==> |termLower| <= |c.name| || |termLower| <= |c.surname| || |termLower| <= |c.email|
  {
    || Contains(ToLower(c.name), termLower)
    || Contains(ToLower(c.surname), termLower)
    || Contains(ToLower(c.email), termLower)
  }

  /** The search predicate as the callback handed to `filter`. */
  function Keep(termLower: string): CustomerData -> bool
  {
    c => Matches(c, termLower)
  }

  /** `Array.prototype.filter`. */
  function Filter<T>(s: seq<T>, keep: T -> bool): (r: seq<T>)
    ensures |r| <= |s|
    decreases |s|
  {
    if s == [] then []
    else (if keep(s[0]) then [s[0]] else []) + Filter(s[1..], keep)
  }

  /** The list `handleSearch` shows for `term`. */
  function Search(customers: seq<CustomerData>, term: string): (shown: seq<CustomerData>)
    ensures forall x :: x in shown <==> x in customers && Matches(x, ToLower(term))
  {
    FilterMembershipAll(customers, Keep(ToLower(term)));
    Filter(customers, Keep(ToLower(term)))
  }

  /** `idx` picks the elements of `a` out of `b` at strictly increasing positions. */
  ghost predicate Embeds<T>(idx: seq<int>, a: seq<T>, b: seq<T>)
  {
    && |idx| == |a|
    && (forall k :: 0 <= k < |idx| ==> 0 <= idx[k] < |b| && a[k] == b[idx[k]])
    && (forall k :: 0 < k < |idx| ==> idx[k - 1] < idx[k])
  }

  /** `a` is `b` with some elements left out and the rest in their original order. */
  ghost predicate IsSubsequence<T>(a: seq<T>, b: seq<T>)
  {
    exists idx :: Embeds(idx, a, b)
  }

  /** `idx` holds exactly the positions of `s` whose element is kept. */
  ghost predicate SelectsKept<T>(idx: seq<int>, s: seq<T>, keep: T -> bool)
  {
    forall i :: 0 <= i < |s| ==> (i in idx <==> keep(s[i]))
  }

  /** Every number in `idx`, raised by one. */
  function Shift(idx: seq<int>): (r: seq<int>)
    ensures |r| == |idx| && forall k :: 0 <= k < |idx| ==> r[k] == idx[k] + 1
  {
    seq(|idx|, k requires 0 <= k < |idx| => idx[k] + 1)
  }

  /** The positions the filter keeps in `s`, given those it keeps in `s[1..]`. */
  function StepIndices<T>(s: seq<T>, keep: T -> bool, idx: seq<int>): seq<int>
    requires s != []
  {
    if keep(s[0]) then [0] + Shift(idx) else Shift(idx)
  }

  /** Shifting an embedding into `s[1..]` embeds into `s`. */
  lemma EmbedsShift<T>(idx: seq<int>, a: seq<T>, s: seq<T>)
    requires s != [] && Embeds(idx, a, s[1..])
    ensures Embeds(Shift(idx), a, s)
    ensures forall k :: 0 <= k < |idx| ==> Shift(idx)[k] >= 1
  {
    forall k | 0 <= k < |idx| ensures s[1..][idx[k]] == s[idx[k] + 1] {
    }
  }

  /** Position 0 in front of an embedding that avoids it embeds one more element. */
  lemma EmbedsCons<T>(idx: seq<int>, a: seq<T>, s: seq<T>)
    requires s != [] && Embeds(idx, a, s)
    requires forall k :: 0 <= k < |idx| ==> idx[k] >= 1
    ensures Embeds([0] + idx, [s[0]] + a, s)
  {
    var idx2, a2 := [0] + idx, [s[0]] + a;
    forall k | 0 < k < |idx2| ensures 0 <= idx2[k] < |s| && a2[k] == s[idx2[k]] && idx2[k - 1] < idx2[k] {
      assert idx2[k] == idx[k - 1] && a2[k] == a[k - 1];
      if k > 1 {
        assert idx2[k - 1] == idx[k - 2];
      }
    }
  }

  /** The filter unfolded once. */
  lemma FilterUnfold<T>(s: seq<T>, keep: T -> bool)
    requires s != []
    ensures Filter(s, keep) == if keep(s[0]) then [s[0]] + Filter(s[1..], keep) else Filter(s[1..], keep)
  {
  }

  lemma EmbedsStep<T>(s: seq<T>, keep: T -> bool, idx: seq<int>)
    requires s != [] && Embeds(idx, Filter(s[1..], keep), s[1..])
    ensures Embeds(StepIndices(s, keep, idx), Filter(s, keep), s)
  {
    EmbedsShift(idx, Filter(s[1..], keep), s);
    FilterUnfold(s, keep);
    if keep(s[0]) {
      EmbedsCons(Shift(idx), Filter(s[1..], keep), s);
    }
  }

  lemma SelectsStep<T>(s: seq<T>, keep: T -> bool, idx: seq<int>)
    requires s != [] && SelectsKept(idx, s[1..], keep)
    requires forall k :: 0 <= k < |idx| ==> 0 <= idx[k]
    ensures SelectsKept(StepIndices(s, keep, idx), s, keep)
  {
    var shifted := Shift(idx);
    forall i | 0 <= i < |s| ensures i in StepIndices(s, keep, idx) <==> keep(s[i]) {
      if i > 0 {
        assert s[1..][i - 1] == s[i];
        assert i in shifted <==> i - 1 in idx by {
          if i in shifted {
            var k :| 0 <= k < |shifted| && shifted[k] == i;
            assert idx[k] == i - 1;
          }
          if i - 1 in idx {
            var k :| 0 <= k < |idx| && idx[k] == i - 1;
            assert shifted[k] == i;
          }
        }
      } else {
        assert 0 !in shifted;
      }
    }
  }

  /**
   * The filter's result is the subsequence of its input at exactly the
   * positions whose element is kept, in their original order.
   */
  lemma {:induction false} FilterSelects<T>(s: seq<T>, keep: T -> bool)
    ensures exists idx :: Embeds(idx, Filter(s, keep), s) && SelectsKept(idx, s, keep)
    decreases |s|
  {
    if s == [] {
      assert Embeds([], Filter(s, keep), s) && SelectsKept([], s, keep);
    } else {
      FilterSelects(s[1..], keep);
      var idx :| Embeds(idx, Filter(s[1..], keep), s[1..]) && SelectsKept(idx, s[1..], keep);
      EmbedsStep(s, keep, idx);
      SelectsStep(s, keep, idx);
    }
  }

  /** The filter keeps its input's order: it is a subsequence of it. */
  lemma FilterIsSubsequence<T>(s: seq<T>, keep: T -> bool)
    ensures IsSubsequence(Filter(s, keep), s)
  {
    FilterSelects(s, keep);
  }

  /** A filter that keeps everything returns its input. */
  lemma {:induction false} FilterAll<T>(s: seq<T>, keep: T -> bool)
    requires forall i :: 0 <= i < |s| ==> keep(s[i])
    ensures Filter(s, keep) == s
    decreases |s|
  {
    if s != [] {
      FilterAll(s[1..], keep);
    }
  }

  /** Every string contains the empty string, so an empty search shows every customer. */
  lemma SearchEmptyTerm(customers: seq<CustomerData>)
    ensures Search(customers, "") == customers
  {
    assert ToLower("") == "";
    forall i | 0 <= i < |customers| ensures Keep("")(customers[i]) {
      assert OccursAt(ToLower(customers[i].name), "", 0);
    }
    FilterAll(customers, Keep(""));
  }

  /** An element is in the filter's result exactly when it is in the input and kept. */
  lemma {:induction false} FilterMembership<T>(s: seq<T>, keep: T -> bool, x: T)
    ensures x in Filter(s, keep) <==> x in s && keep(x)
    decreases |s|
  {
    if s != [] {
      FilterUnfold(s, keep);
      FilterMembership(s[1..], keep, x);
      assert s == [s[0]] + s[1..];
    }
  }

  /** The membership of the filter's result, for every element at once. */
  lemma FilterMembershipAll<T>(s: seq<T>, keep: T -> bool)
    ensures forall x :: x in Filter(s, keep) <==> x in s && keep(x)
  {
    forall x ensures x in Filter(s, keep) <==> x in s && keep(x) {
      FilterMembership(s, keep, x);
    }
  }

  /** Every element of the filter's result is kept. */
  lemma FilterKeeps<T>(s: seq<T>, keep: T -> bool)
    ensures forall i :: 0 <= i < |Filter(s, keep)| ==> keep(Filter(s, keep)[i])
  {
    var r := Filter(s, keep);
    forall i | 0 <= i < |r| ensures keep(r[i]) {
      FilterMembership(s, keep, r[i]);
    }
  }

  /** A customer is shown exactly when the lowercased term occurs in its lowercased name, surname or email. */
  lemma SearchMembership(customers: seq<CustomerData>, term: string, x: CustomerData)
    ensures x in Search(customers, term) <==>
      && x in customers
      && (|| Contains(ToLower(x.name), ToLower(term))
          || Contains(ToLower(x.surname), ToLower(term))
          || Contains(ToLower(x.email), ToLower(term)))
  {
    FilterMembership(customers, Keep(ToLower(term)), x);
  }

  /** Filtering an already filtered list with the same callback changes nothing. */
  lemma {:induction false} FilterIdempotent<T>(s: seq<T>, keep: T -> bool)
    ensures Filter(Filter(s, keep), keep) == Filter(s, keep)
  {
    FilterKeeps(s, keep);
    FilterAll(Filter(s, keep), keep);
  }

  /** Filtering distributes over concatenation. */
  lemma {:induction false} FilterConcat<T>(a: seq<T>, b: seq<T>, keep: T -> bool)
    ensures Filter(a + b, keep) == Filter(a, keep) + Filter(b, keep)
    decreases |a|
  {
    if a != [] {
      assert (a + b)[1..] == a[1..] + b;
      FilterConcat(a[1..], b, keep);
    } else {
      assert a + b == b;
    }
  }

  /**
   * Appending an element extends the filter's result by that element
   * exactly when it is kept: the list the add dialog extends is the search
   * result only for a newcomer that matches the active term.
   */
  lemma FilterAppend<T>(s: seq<T>, x: T, keep: T -> bool)
    ensures Filter(s + [x], keep) == Filter(s, keep) + (if keep(x) then [x] else [])
  {
    FilterConcat(s, [x], keep);
    assert Filter([x], keep) == (if keep(x) then [x] else []) + Filter([], keep);
  }

  /** A list is a subsequence of itself. */
  lemma SubsequenceRefl<T>(a: seq<T>)
    ensures IsSubsequence(a, a)
  {
    var idx := seq(|a|, k requires 0 <= k < |a| => k);
    assert Embeds(idx, a, a);
  }

  /** Appending the same element to both lists keeps one a subsequence of the other. */
  lemma SubsequenceAppend<T>(a: seq<T>, b: seq<T>, x: T)
    requires IsSubsequence(a, b)
    ensures IsSubsequence(a + [x], b + [x])
  {
    var idx :| Embeds(idx, a, b);
    var idx2 := idx + [|b|];
    assert Embeds(idx2, a + [x], b + [x]);
  }

  /** The page's state, once the initial fetch has completed. */
  class CustomerList {
    var customers: seq<CustomerData>
    var filteredCustomers: seq<CustomerData>
    var searchTerm: string
    var openDialog: bool
    var newCustomer: CustomerData
    var phoneError: bool

    /** The shown list is always an order-preserving selection from the full list. */
    ghost predicate Valid()
      reads this
    {
      IsSubsequence(filteredCustomers, customers)
    }

    /** The page after the mount effect stored the fetched customers in both lists; a failed fetch leaves `[]`. */
    constructor (fetched: seq<CustomerData>)
      ensures Valid()
      ensures customers == fetched && filteredCustomers == fetched
      ensures searchTerm == "" && !openDialog && newCustomer == EmptyCustomer && !phoneError
    {
      customers := fetched;
      filteredCustomers := fetched;
      searchTerm := "";
      openDialog := false;
      newCustomer := EmptyCustomer;
      phoneError := false;
      SubsequenceRefl(fetched);
    }

    /** `handleSearch`: the shown list becomes the full list filtered by the lowercased term. */
    method HandleSearch(term: string)
      requires Valid()
      modifies this
      ensures Valid()
      ensures searchTerm == term && filteredCustomers == Search(customers, term)
      ensures customers == old(customers) && openDialog == old(openDialog)
      ensures newCustomer == old(newCustomer) && phoneError == old(phoneError)
    {
      searchTerm := term;
      var searchTermLower := ToLower(term);
      filteredCustomers := Filter(customers, Keep(searchTermLower));
      FilterIsSubsequence(customers, Keep(searchTermLower));
    }

    /**
     * `handleAddCustomer`: a blank phone only raises the field error;
     * otherwise the form's customer, with the fresh id, is appended to both
     * lists and the dialog is closed and cleared.
     */
    method HandleAddCustomer(newId: string)
      requires Valid()
      modifies this
      ensures Valid()
      ensures Trim(old(newCustomer.phone)) == "" ==>
        && phoneError
        && customers == old(customers) && filteredCustomers == old(filteredCustomers)
        && openDialog == old(openDialog) && newCustomer == old(newCustomer)
      ensures Trim(old(newCustomer.phone)) != "" ==>
        && customers == old(customers) + [old(newCustomer).(id := newId)]
        && filteredCustomers == old(filteredCustomers) + [old(newCustomer).(id := newId)]
        && !openDialog && newCustomer == EmptyCustomer && !phoneError
      ensures searchTerm == old(searchTerm)
    {
      if Trim(newCustomer.phone) == "" {
        phoneError := true;
        return;
      }
      var customerToAdd := newCustomer.(id := newId);
      SubsequenceAppend(filteredCustomers, customers, customerToAdd);
      customers := customers + [customerToAdd];
      filteredCustomers := filteredCustomers + [customerToAdd];
      openDialog := false;
      newCustomer := EmptyCustomer;
      phoneError := false;
    }

    method HandleOpenDialog()
      requires Valid()
      modifies this
      ensures Valid() && openDialog
      ensures customers == old(customers) && filteredCustomers == old(filteredCustomers)
      ensures searchTerm == old(searchTerm) && newCustomer == old(newCustomer) && phoneError == old(phoneError)
    {
      openDialog := true;
    }

    /** `handleCloseDialog`: the dialog closes and the phone error is cleared; the form keeps its text. */
    method HandleCloseDialog()
      requires Valid()
      modifies this
      ensures Valid() && !openDialog && !phoneError
      ensures customers == old(customers) && filteredCustomers == old(filteredCustomers)
      ensures searchTerm == old(searchTerm) && newCustomer == old(newCustomer)
    {
      openDialog := false;
      phoneError := false;
    }

    /** Typing in the name field. */
    method EditName(value: string)
      requires Valid()
      modifies this
      ensures Valid() && newCustomer == old(newCustomer).(name := value)
      ensures customers == old(customers) && filteredCustomers == old(filteredCustomers)
      ensures searchTerm == old(searchTerm) && openDialog == old(openDialog) && phoneError == old(phoneError)
    {
      newCustomer := newCustomer.(name := value);
    }

    /** Typing in the surname field. */
    method EditSurname(value: string)
      requires Valid()
      modifies this
      ensures Valid() && newCustomer == old(newCustomer).(surname := value)
      ensures customers == old(customers) && filteredCustomers == old(filteredCustomers)
      ensures searchTerm == old(searchTerm) && openDialog == old(openDialog) && phoneError == old(phoneError)
    {
      newCustomer := newCustomer.(surname := value);
    }

    /** Typing in the phone field also clears the phone error. */
    method EditPhone(value: string)
      requires Valid()
      modifies this
      ensures Valid() && newCustomer == old(newCustomer).(phone := value) && !phoneError
      ensures customers == old(customers) && filteredCustomers == old(filteredCustomers)
      ensures searchTerm == old(searchTerm) && openDialog == old(openDialog)
    {
      newCustomer := newCustomer.(phone := value);
      phoneError := false;
    }

    /** Typing in the email field. */
    method EditEmail(value: string)
      requires Valid()
      modifies this
      ensures Valid() && newCustomer == old(newCustomer).(email := value)
      ensures customers == old(customers) && filteredCustomers == old(filteredCustomers)
      ensures searchTerm == old(searchTerm) && openDialog == old(openDialog) && phoneError == old(phoneError)
    {
      newCustomer := newCustomer.(email := value);
    }
  }
}
