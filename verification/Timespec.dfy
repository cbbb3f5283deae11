/** Points in time as seconds and nanoseconds, with the program's own arithmetic. */
module Timespec {

  const NS: int := 1_000_000_000
  const MS: int := 1_000_000

  datatype Timespec = Timespec(sec: int, nsec: int)

  predicate Normal(t: Timespec) { 0 <= t.nsec < NS }

  /** The same instant in nanoseconds. */
  function Ns(t: Timespec): int { t.sec * NS + t.nsec }

  /** So many nanoseconds after an instant. */
  predicate LaterBy(due: Timespec, from: Timespec, ns: int) {
    due.sec * 1_000_000_000 + due.nsec == from.sec * 1_000_000_000 + from.nsec + ns
  }

  predicate Less(a: Timespec, b: Timespec) {
    a.sec < b.sec || (a.sec == b.sec && a.nsec < b.nsec)
  }

  predicate LessEq(a: Timespec, b: Timespec) {
    a.sec < b.sec || (a.sec == b.sec && a.nsec <= b.nsec)
  }

  /** Division and remainder that truncate toward zero. */
  function Quot(a: int, b: int): int
    requires b > 0
  {
    if a >= 0 then a / b else -(-a / b)
  }

  function Rem(a: int, b: int): int
    requires b > 0
  {
    a - Quot(a, b) * b
  }

  /** t += msek. */
  function AddMs(t: Timespec, msek: int): Timespec {
    var sec, nsec := t.sec + Quot(msek, 1000), t.nsec + Rem(msek, 1000) * MS;
    if nsec >= NS then Timespec(sec + 1, nsec - NS) else Timespec(sec, nsec)
  }

  /** t -= msek. */
  function SubMs(t: Timespec, msek: int): Timespec {
    var sec, nsec := t.sec - Quot(msek, 1000), t.nsec - Rem(msek, 1000) * MS;
    if nsec < 0 then Timespec(sec - 1, nsec + NS) else Timespec(sec, nsec)
  }

  /** t + msek, whose carry takes a millisecond off where a second is due. */
  function PlusMs(t: Timespec, msek: int): Timespec {
    var sec, nsec := t.sec + Quot(msek, 1000), t.nsec + Rem(msek, 1000) * MS;
    if nsec >= NS then Timespec(sec + 1, nsec - MS) else Timespec(sec, nsec)
  }

  function Minus(a: Timespec, b: Timespec): Timespec {
    var sec, nsec := a.sec - b.sec, a.nsec - b.nsec;
    if nsec < 0 then Timespec(sec - 1, nsec + NS) else Timespec(sec, nsec)
  }

  function Plus(a: Timespec, b: Timespec): Timespec {
    var sec, nsec := a.sec + b.sec, a.nsec + b.nsec;
    if nsec >= NS then Timespec(sec + 1, nsec - NS) else Timespec(sec, nsec)
  }

  /** On normal values the two-field comparison is the comparison of instants. */
  lemma ComparisonIsByInstant(a: Timespec, b: Timespec)
    requires Normal(a) && Normal(b)
    ensures Less(a, b) <==> Ns(a) < Ns(b)
    ensures LessEq(a, b) <==> Ns(a) <= Ns(b)
    ensures a == b <==> Ns(a) == Ns(b)
  {
  }

  /** Adding is exact for every count of milliseconds.  From a normal value the result is normal
      exactly when the nanoseconds do not fall below zero, which a negative count can make
      happen. */
  lemma AddMsIsExact(t: Timespec, msek: int)
    ensures Ns(AddMs(t, msek)) == Ns(t) + msek * MS
    ensures Normal(t) ==> (Normal(AddMs(t, msek)) <==> t.nsec + Rem(msek, 1000) * MS >= 0)
    ensures Normal(t) && msek >= 0 ==> Normal(AddMs(t, msek))
    ensures t.nsec < NS ==> AddMs(t, msek).nsec < NS
  {
    QuotRem(msek);
    hide Quot, Rem;
  }

  lemma QuotRem(msek: int)
    ensures var q, r := Quot(msek, 1000), Rem(msek, 1000);
      && msek == q * 1000 + r && -1000 < r < 1000
      && (if msek >= 0 then q >= 0 && r >= 0 else q <= 0 && r <= 0)
  {
  }

  /** The two additions agree exactly when no second is carried; otherwise the sum is 999 milliseconds
      too late. */
  lemma PlusMsIsExactIff(t: Timespec, msek: int)
    ensures PlusMs(t, msek) == AddMs(t, msek) <==> t.nsec + Rem(msek, 1000) * MS < NS
    ensures Ns(PlusMs(t, msek))
         == Ns(t) + msek * MS + if t.nsec + Rem(msek, 1000) * MS < NS then 0 else 999 * MS
  {
    QuotRem(msek);
    hide Quot, Rem;
  }

  /** Half a second and half a second. */
  lemma PlusMsCarriesWrong()
    ensures PlusMs(Timespec(0, 500_000_000), 500) == Timespec(1, 999_000_000)
    ensures AddMs(Timespec(0, 500_000_000), 500) == Timespec(1, 0)
  {
  }

  /** Adding a positive count moves to a later time, even from a value that is not normal: by
      seconds, or within a second to fewer nanoseconds than a second has. */
  lemma AddMovesOn(t: Timespec, msek: int)
    requires msek >= 1
    ensures var u := AddMs(t, msek); t.sec < u.sec || (t.sec == u.sec && t.nsec < u.nsec < NS)
  {
    QuotRem(msek);
    hide Quot, Rem;
  }

  /** Adding a count that is not positive does not, unless a second is carried out of nanoseconds
      that should not have been there. */
  lemma AddStays(t: Timespec, msek: int)
    requires msek <= 0
    ensures t.nsec < NS ==> LessEq(AddMs(t, msek), t)
    ensures !LessEq(AddMs(t, msek), t) ==> t.sec < AddMs(t, msek).sec
    ensures var u := AddMs(t, msek); LessEq(u, t) ==> LessEq(AddMs(u, msek), u)
  {
    QuotRem(msek);
    hide Quot, Rem;
  }

  /** A negative count of milliseconds can leave a value that is not normal. */
  lemma AddNegativeMsNotNormal()
    ensures !Normal(AddMs(Timespec(1, 0), -1))
  {
  }

  lemma SubMsIsExact(t: Timespec, msek: int)
    ensures Ns(SubMs(t, msek)) == Ns(t) - msek * MS
    ensures Normal(t) && msek >= 0 ==> Normal(SubMs(t, msek))
    ensures t.nsec < NS && msek >= 0 ==> SubMs(t, msek).nsec < NS
  {
    QuotRem(msek);
    hide Quot, Rem;
  }

  lemma SubUndoesAdd(t: Timespec, msek: int)
    requires Normal(t)
    ensures SubMs(AddMs(t, msek), msek) == t
  {
    QuotRem(msek);
    hide Quot, Rem;
  }

  lemma DifferenceIsExact(a: Timespec, b: Timespec)
    requires Normal(a) && Normal(b)
    ensures Normal(Minus(a, b)) && Ns(Minus(a, b)) == Ns(a) - Ns(b)
    ensures Plus(Minus(a, b), b) == a
  {
    ComparisonIsByInstant(Plus(Minus(a, b), b), a);
  }
}
