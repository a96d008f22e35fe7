/**
 * Registration with a one-time password. `register` validates the e-mail,
 * refuses an address already in the users table, and otherwise files the
 * form under the address in the process-wide pending store together with a
 * fresh six-digit code; `verify_otp` moves a pending form into the users
 * table when the code typed in equals the stored one.
 *
 * The code is drawn at random and mailed in the source; here it is a
 * parameter, and the mail is not modelled. The users table is the part of
 * the database these two routes touch: the stored forms, keyed by e-mail.
 */
module Registration {
  import opened Text
  import opened EmailCheck

  /** The registration form as submitted. */
  datatype Form = Form(email: string, password: string, year: string, semester: string,
                       academicYear: string, school: string, branch: string)

  /** A pending registration: the code mailed out and the form to store. */
  datatype Pending = Pending(otp: string, data: Form)

  /** The pending store and the users table together. */
  datatype Store = Store(pending: map<string, Pending>, users: map<string, Form>)

  datatype RegisterOutcome = InvalidEmail | AlreadyRegistered | OtpSent

  /** The text of a code drawn from 100000..999999: six digits, no leading zero. */
  predicate IsOtp(code: string) {
    |code| == 6 && code[0] != '0' && Digits(code)
  }

  /** `str(random.randint(100000, 999999))` for the drawn number `otp`: a
      six-digit code that reads back as `otp`. */
  function OtpText(otp: nat): (code: string)
    requires 100000 <= otp <= 999999
    ensures IsOtp(code) && DigitsValue(code) == otp
  {
    assert Pow10(5) == 100000 && Pow10(6) == 1000000;
    DecimalStringLength(otp, 6);
    DecimalStringValue(otp);
    DecimalString(otp)
  }

  /** What holds of the store between requests: every pending form is filed
      under its own, valid, not yet registered address with a six-digit code,
      and every user row is keyed by its own address. */
  predicate Consistent(st: Store) {
    && (forall e :: e in st.pending ==>
          && st.pending[e].data.email == e && ValidEmail(e)
          && IsOtp(st.pending[e].otp) && e !in st.users)
    && (forall e :: e in st.users ==> st.users[e].email == e)
  }

  /** `register` on a POST: the outcome and the store afterwards. */
  function RegisterStep(st: Store, form: Form, otp: nat): (r: (RegisterOutcome, Store))
    requires 100000 <= otp <= 999999
    ensures r.0 == InvalidEmail <==> !ValidEmail(form.email)
    ensures r.0 == AlreadyRegistered <==> ValidEmail(form.email) && form.email in st.users
    ensures r.0 == OtpSent ==> r.1 == Store(st.pending[form.email := Pending(OtpText(otp), form)], st.users)
    ensures r.0 != OtpSent ==> r.1 == st
  {
    if !ValidEmail(form.email) then (InvalidEmail, st)
    else if form.email in st.users then (AlreadyRegistered, st)
    else (OtpSent, st.(pending := st.pending[form.email := Pending(OtpText(otp), form)]))
  }

  /** `verify_otp`: whether the registration completed, and the store afterwards. */
  function VerifyStep(st: Store, email: string, entered: string): (r: (bool, Store))
    ensures r.0 <==> email in st.pending && st.pending[email].otp == entered
    ensures r.0 ==> r.1 == Store(st.pending - {email}, st.users[email := st.pending[email].data])
    ensures !r.0 ==> r.1 == st
  {
    if email in st.pending && st.pending[email].otp == entered
    then (true, Store(st.pending - {email}, st.users[email := st.pending[email].data]))
    else (false, st)
  }

  /** Registration keeps the store consistent, and touches no entry but the
      one for the submitted address. */
  lemma RegisterKeepsConsistent(st: Store, form: Form, otp: nat)
    requires 100000 <= otp <= 999999
    requires Consistent(st)
    ensures var st' := RegisterStep(st, form, otp).1;
      && Consistent(st')
      && (forall e :: e != form.email ==> (e in st'.pending <==> e in st.pending))
      && (forall e :: e != form.email && e in st.pending ==> st'.pending[e] == st.pending[e])
  {
    var r := RegisterStep(st, form, otp);
    if r.0 == OtpSent {
      var entry := Pending(OtpText(otp), form);
      assert r.1.pending == st.pending[form.email := entry] && r.1.users == st.users;
      assert IsOtp(entry.otp) && ValidEmail(form.email) && form.email !in st.users;
      forall e | e in r.1.pending
        ensures r.1.pending[e].data.email == e && ValidEmail(e)
        ensures IsOtp(r.1.pending[e].otp) && e !in r.1.users
      {
        if e != form.email {
          assert r.1.pending[e] == st.pending[e];
        }
      }
    }
  }

  /** Verification keeps the store consistent. */
  lemma VerifyKeepsConsistent(st: Store, email: string, entered: string)
    requires Consistent(st)
    ensures Consistent(VerifyStep(st, email, entered).1)
  {
  }

  /** A successful verification adds exactly one user row and removes exactly
      one pending entry, so, with requests taken one at a time, a
      registration cannot be completed twice. */
  lemma VerifyMovesOneEntry(st: Store, email: string, entered: string)
    requires Consistent(st)
    requires VerifyStep(st, email, entered).0
    ensures var st' := VerifyStep(st, email, entered).1;
      && |st'.users.Keys| == |st.users.Keys| + 1 && |st'.pending.Keys| == |st.pending.Keys| - 1
      && email in st'.users && email !in st'.pending
  {
    var st' := VerifyStep(st, email, entered).1;
    assert email in st.pending && email !in st.users;
    assert st' == Store(st.pending - {email}, st.users[email := st.pending[email].data]);
    KeysAfterMove(st.pending, st.users, email, st.pending[email].data);
  }

  lemma KeysAfterMove(pending: map<string, Pending>, users: map<string, Form>, email: string, f: Form)
    requires email in pending && email !in users
    ensures |(pending - {email}).Keys| == |pending.Keys| - 1
    ensures |users[email := f].Keys| == |users.Keys| + 1
  {
    assert (pending - {email}).Keys == pending.Keys - {email};
    assert users[email := f].Keys == users.Keys + {email};
  }

  /** The round trip: a registration followed by the mailed code completes,
      files the submitted form as the new user, and clears the pending entry;
      any other text is refused and changes nothing. */
  lemma RegisterThenVerify(st: Store, form: Form, otp: nat, entered: string)
    requires 100000 <= otp <= 999999
    requires ValidEmail(form.email) && form.email !in st.users
    ensures var st1 := RegisterStep(st, form, otp).1;
      var (ok, st2) := VerifyStep(st1, form.email, entered);
      && (ok <==> entered == OtpText(otp))
      && (ok ==> st2.users == st.users[form.email := form] && st2.pending == st.pending - {form.email})
      && (!ok ==> st2 == st1)
  {
    var st1 := RegisterStep(st, form, otp).1;
    if entered == OtpText(otp) {
      assert st1.pending - {form.email} == st.pending - {form.email};
    }
  }

  /** A second registration for the same address replaces the code: the code
      mailed first no longer completes it. */
  lemma ReRegisterReplacesCode(st: Store, form1: Form, form2: Form, otp1: nat, otp2: nat)
    requires 100000 <= otp1 <= 999999 && 100000 <= otp2 <= 999999 && otp1 != otp2
    requires form1.email == form2.email && ValidEmail(form1.email) && form1.email !in st.users
    ensures var st2 := RegisterStep(RegisterStep(st, form1, otp1).1, form2, otp2).1;
      && !VerifyStep(st2, form1.email, OtpText(otp1)).0
      && VerifyStep(st2, form1.email, OtpText(otp2)).1.users[form1.email] == form2
  {
    assert DigitsValue(OtpText(otp1)) != DigitsValue(OtpText(otp2));
  }

  /** Once registered, the address is refused by `register`. */
  lemma NoSecondRegistration(st: Store, email: string, entered: string, form: Form, otp: nat)
    requires 100000 <= otp <= 999999
    requires Consistent(st) && form.email == email
    requires VerifyStep(st, email, entered).0
    ensures RegisterStep(VerifyStep(st, email, entered).1, form, otp).0 == AlreadyRegistered
  {
    assert ValidEmail(email);
  }

  /** The process-wide `otp_storage` dictionary and the users table. */
  class OtpStore {
    var pending: map<string, Pending>
    var users: map<string, Form>

    function State(): Store
      reads this
    {
      Store(pending, users)
    }

    ghost predicate Valid()
      reads this
    {
      Consistent(State())
    }

    /** At start-up `otp_storage` is empty and the users table holds
        whatever rows the database already has, each under its own e-mail. */
    constructor (users0: map<string, Form>)
      requires forall e :: e in users0 ==> users0[e].email == e
      ensures Valid() && State() == Store(map[], users0)
    {
      pending := map[];
      users := users0;
    }

    method Register(form: Form, otp: nat) returns (outcome: RegisterOutcome)
      requires Valid()
      requires 100000 <= otp <= 999999
      modifies this
      ensures Valid()
      ensures (outcome, State()) == RegisterStep(old(State()), form, otp)
    {
      if !ValidEmail(form.email) {
        return InvalidEmail;
      }
      if form.email in users {
        return AlreadyRegistered;
      }
      var code := OtpText(otp);
      pending := pending[form.email := Pending(code, form)];
      outcome := OtpSent;
      RegisterKeepsConsistent(old(State()), form, otp);
    }

    method VerifyOtp(email: string, entered: string) returns (ok: bool)
      requires Valid()
      modifies this
      ensures Valid()
      ensures (ok, State()) == VerifyStep(old(State()), email, entered)
    {
      if email in pending && pending[email].otp == entered {
        var newUser := pending[email].data;
        users := users[newUser.email := newUser];
        pending := pending - {email};
        ok := true;
      } else {
        ok := false;
      }
      VerifyKeepsConsistent(old(State()), email, entered);
    }
  }
}
