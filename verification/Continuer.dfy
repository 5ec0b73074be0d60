/** The table of continuation points (Indexer/Continuer.c) and the identifiers it gives them. */
module Continuing {
  import opened OpcTypes

  /** What to browse: 0 forward, 1 inverse, 2 both; a null reference type lets every type pass, and
      a zero mask every node class. */
  datatype Request = Request(node: NodeId, direction: nat, refType: NodeId, subtypes: bool, mask: nat)

  type Ident = seq<char>

  datatype Point = Point(ident: Ident, request: Request, session: NodeId, batch: int, offset: nat)

  /** The node behind an alias; any other node is itself. */
  function Resolve(alias: map<NodeId, NodeId>, id: NodeId): NodeId {
    if id in alias then alias[id] else id
  }

  /** What a continuation point keeps of a request: the reference type is cleared before it is
      copied, and an alias is replaced by its node. */
  function Continued(alias: map<NodeId, NodeId>, request: Request): Request {
    request.(node := Resolve(alias, request.node), refType := NULL_ID)
  }

  datatype Table = Table(points: seq<Point>, counter: nat)

  // ----- Identifiers -----

  /** Division by ten that truncates toward zero. */
  function Tenth(i: int): int {
    if i >= 0 then i / 10 else -((-i) / 10)
  }

  /** The loop that is meant to count the digits: it leaves only the leading one in the index. */
  function Reduced(index: int, divisions: nat): (int, nat)
    decreases if index >= 0 then index else -index
  {
    if Tenth(index) == 0 then (index, divisions) else Reduced(Tenth(index), divisions + 1)
  }

  /** An integer between -9 and 9 in decimal. */
  function Short(i: int): seq<char>
    requires -10 < i < 10
  {
    if i < 0 then ['-', '0' + (-i) as char] else ['0' + i as char]
  }

  lemma {:induction false} ReducedIsShort(index: int, divisions: nat)
    ensures -10 < Reduced(index, divisions).0 < 10 && Reduced(index, divisions).1 >= divisions
    ensures index >= 0 ==> Reduced(index, divisions).0 >= 0
    decreases if index >= 0 then index else -index
  {
    if Tenth(index) != 0 {
      ReducedIsShort(Tenth(index), divisions + 1);
    }
  }

  /** A 32-bit pattern read as a signed integer. */
  function Signed(u: nat): int {
    if u < INT32 then u else u - UINT32
  }

  /** The bytes of an identifier: the text cut to `divisions` characters, then zeros. */
  function IdentOf(counter: nat): (id: Ident)
    ensures |id| >= 2
  {
    var index := Signed((counter + 1) % UINT32);
    ReducedIsShort(index, 1);
    Zeroed(Short(Reduced(index, 1).0), Reduced(index, 1).1)
  }

  /** The text, cut to `n` characters, in a buffer of zeros of one more character. */
  function Zeroed(text: string, n: nat): (id: Ident)
    ensures |id| == n + 1
    ensures forall j :: 0 <= j <= n ==> id[j] == if j < |text| && j < n then text[j] else 0 as char
  {
    seq(n + 1, j requires 0 <= j => if j < |text| && j < n then text[j] else 0 as char)
  }

  function Pow10(k: nat): (p: nat)
    ensures p >= 1
  {
    if k == 0 then 1 else 10 * Pow10(k - 1)
  }

  /** The numbers with `k + 1` decimal digits that start with `lead`. */
  predicate StartsWith(n: nat, lead: nat, k: nat) {
    lead * Pow10(k) <= n < (lead + 1) * Pow10(k)
  }

  lemma TenTimes(a: nat, p: nat)
    ensures a * (10 * p) == 10 * (a * p)
  {
  }

  /** Dropping the last digit keeps the leading one. */
  lemma StartsWithTenth(n: nat, lead: nat, k: nat)
    requires k > 0
    ensures StartsWith(n, lead, k) <==> StartsWith(n / 10, lead, k - 1)
  {
    TenTimes(lead, Pow10(k - 1));
    TenTimes(lead + 1, Pow10(k - 1));
  }

  lemma OneDigitStarts(n: nat, lead: nat, k: nat)
    requires lead >= 1
    ensures k == 0 ==> (StartsWith(n, lead, k) <==> n == lead)
    ensures k > 0 && n < 10 ==> !StartsWith(n, lead, k)
  {
    if k == 0 {
      assert lead * Pow10(0) == lead && (lead + 1) * Pow10(0) == lead + 1;
    } else {
      TenTimes(lead, Pow10(k - 1));
      assert lead * Pow10(k - 1) >= 1;
    }
  }

  lemma {:induction false} ReducedLead(n: nat, divisions: nat, lead: nat, k: nat)
    requires n > 0 && 1 <= lead <= 9
    ensures StartsWith(n, lead, k) <==> Reduced(n, divisions) == (lead, divisions + k)
    decreases n
  {
    OneDigitStarts(n, lead, k);
    if n >= 10 {
      ReducedIsShort(n / 10, divisions + 1);
      if k > 0 {
        StartsWithTenth(n, lead, k);
        ReducedLead(n / 10, divisions + 1, lead, k - 1);
      }
    }
  }

  predicate BothStartWith(m: nat, n: nat, lead: nat, k: nat) {
    1 <= lead <= 9 && StartsWith(m, lead, k) && StartsWith(n, lead, k)
  }

  /** The two numbers have as many digits and the same leading digit. */
  ghost predicate SameStart(m: nat, n: nat) {
    exists lead, k :: BothStartWith(m, n, lead, k)
  }

  /** The number that the identifier of a counter is made from. */
  function NumberOf(counter: nat): (n: int)
    ensures -INT32 <= n < INT32
  {
    Signed((counter + 1) % UINT32)
  }

  lemma StartIffReduced(m: nat, n: nat)
    requires m > 0 && n > 0
    ensures SameStart(m, n) <==> Reduced(m, 1) == Reduced(n, 1)
  {
    PositiveLead(m, 1);
    PositiveLead(n, 1);
    ReducedIsShort(m, 1);
    ReducedIsShort(n, 1);
    var (lead, divisions) := Reduced(m, 1);
    ReducedLead(m, 1, lead, divisions - 1);
    ReducedLead(n, 1, lead, divisions - 1);
    if Reduced(m, 1) == Reduced(n, 1) {
      assert BothStartWith(m, n, lead, divisions - 1);
    }
    if l, k :| BothStartWith(m, n, l, k) {
      ReducedLead(m, 1, l, k);
      ReducedLead(n, 1, l, k);
    }
  }

  /** A negative number counts down like its absolute value. */
  lemma {:induction false} ReducedNegative(n: int, divisions: nat)
    requires n >= 0
    ensures Reduced(-n, divisions) == (-Reduced(n, divisions).0, Reduced(n, divisions).1)
    decreases n
  {
    if n >= 10 {
      ReducedNegative(n / 10, divisions + 1);
    }
  }

  lemma {:induction false} OneDigitIff(n: nat, divisions: nat)
    ensures Reduced(n, divisions).1 == divisions <==> n < 10
    decreases n
  {
    if n >= 10 {
      ReducedIsShort(n / 10, divisions + 1);
    }
  }

  /** When the identifiers of two numbers agree: zero stands alone, positive numbers agree by their
      start, negative ones of one digit all agree, since the minus sign leaves no room, and longer
      negative ones agree by their start. */
  ghost predicate SameShape(m: int, n: int) {
    if m == 0 || n == 0 then m == n
    else if m > 0 || n > 0 then m > 0 && n > 0 && SameStart(m, n)
    else (m > -10 && n > -10) || (m <= -10 && n <= -10 && SameStart(-m, -n))
  }

  /** The text for a number, as the digit loop leaves it. */
  function TextOf(n: int): Ident {
    ReducedIsShort(n, 1);
    Zeroed(Short(Reduced(n, 1).0), Reduced(n, 1).1)
  }

  lemma TextParts(n: int)
    ensures n >= 0 ==> |TextOf(n)| == Reduced(n, 1).1 + 1 >= 2 && TextOf(n)[0] as int == 48 + Reduced(n, 1).0
    ensures n < 0 ==> |TextOf(n)| == Reduced(-n, 1).1 + 1 >= 2 && TextOf(n)[0] == '-'
    ensures n <= -10 ==> |TextOf(n)| >= 3 && TextOf(n)[1] as int == 48 + Reduced(-n, 1).0
    ensures -10 < n < 0 ==> |TextOf(n)| == 2
  {
    ReducedIsShort(n, 1);
    if n < 0 {
      ReducedIsShort(-n, 1);
      ReducedNegative(-n, 1);
      OneDigitIff(-n, 1);
      PositiveLead(-n, 1);
    }
  }

  lemma SameText(m: int, n: int)
    ensures Reduced(m, 1) == Reduced(n, 1) ==> TextOf(m) == TextOf(n)
    ensures -10 < m < 0 && -10 < n < 0 ==> TextOf(m) == TextOf(n)
  {
    TextParts(m);
    TextParts(n);
    if -10 < m < 0 && -10 < n < 0 {
      assert TextOf(m) == ['-', 0 as char] && TextOf(n) == ['-', 0 as char];
    }
  }

  lemma SamePositiveIff(m: int, n: int)
    requires m >= 0 && n >= 0
    ensures TextOf(m) == TextOf(n) <==> SameShape(m, n)
  {
    TextParts(m);
    TextParts(n);
    SameText(m, n);
    if m > 0 && n > 0 {
      StartIffReduced(m, n);
    } else if m > 0 {
      PositiveLead(m, 1);
    } else if n > 0 {
      PositiveLead(n, 1);
    }
  }

  lemma SameNegativeIff(m: int, n: int)
    requires m < 0 && n < 0
    ensures TextOf(m) == TextOf(n) <==> SameShape(m, n)
  {
    TextParts(m);
    TextParts(n);
    SameText(m, n);
    ReducedNegative(-m, 1);
    ReducedNegative(-n, 1);
    StartIffReduced(-m, -n);
  }

  lemma SameTextIff(m: int, n: int)
    ensures TextOf(m) == TextOf(n) <==> SameShape(m, n)
  {
    if m >= 0 && n >= 0 {
      SamePositiveIff(m, n);
    } else if m < 0 && n < 0 {
      SameNegativeIff(m, n);
    } else {
      TextParts(m);
      TextParts(n);
      ReducedIsShort(m, 1);
      ReducedIsShort(n, 1);
    }
  }

  /** For every two values of the 32-bit counter: the identifiers are the same exactly when the signed
      numbers behind them have the same shape. */
  lemma SameIdentIff(a: nat, b: nat)
    requires a < UINT32 && b < UINT32
    ensures IdentOf(a) == IdentOf(b) <==> SameShape(NumberOf(a), NumberOf(b))
  {
    SameTextIff(NumberOf(a), NumberOf(b));
  }

  lemma {:induction false} PositiveLead(n: nat, divisions: nat)
    requires n > 0
    ensures 1 <= Reduced(n, divisions).0 <= 9
    decreases n
  {
    if n >= 10 {
      PositiveLead(n / 10, divisions + 1);
    }
  }

  /** The tenth and the eleventh point of a table that counts from zero are indistinguishable, and so
      are the points for -6 and -4. */
  lemma TenthAndEleventhCollide()
    ensures IdentOf(9) == IdentOf(10) && IdentOf(0xFFFF_FFF9) == IdentOf(0xFFFF_FFFB)
  {
    assert BothStartWith(10, 11, 1, 1) by {
      assert Pow10(1) == 10 * Pow10(0);
    }
    SameIdentIff(9, 10);
    SameIdentIff(0xFFFF_FFF9, 0xFFFF_FFFB);
  }

  // ----- Finding and removing by identifier -----

  /** The first point with the identifier, or the length when there is none. */
  function FirstAt(points: seq<Point>, id: Ident): (i: nat)
    ensures i <= |points|
    ensures i < |points| ==> points[i].ident == id
    ensures forall j :: 0 <= j < i ==> points[j].ident != id
  {
    if points == [] then 0
    else if points[0].ident == id then 0
    else 1 + FirstAt(points[1..], id)
  }

  function WithoutAt(points: seq<Point>, i: nat): (out: seq<Point>)
    ensures |out| == if i < |points| then |points| - 1 else |points|
    ensures i < |points| ==> forall j :: 0 <= j < |out| ==> out[j] == points[if j < i then j else j + 1]
  {
    if i < |points| then points[..i] + points[i + 1..] else points
  }

  /** Looking a point up by its own identifier finds it exactly when no earlier one shares it. */
  lemma LookupFindsOwnIff(points: seq<Point>, i: nat)
    requires i < |points|
    ensures FirstAt(points, points[i].ident) == i <==> forall j :: 0 <= j < i ==> points[j].ident != points[i].ident
  {
  }

  // ----- Removing the points of a session -----

  /** One iteration: a point of the session removes the first point with its identifier. */
  function PurgeOne(points: seq<Point>, session: NodeId, i: nat): (out: seq<Point>)
    requires 0 < i <= |points|
    ensures i - 1 <= |out|
  {
    if points[i - 1].session == session then WithoutAt(points, FirstAt(points, points[i - 1].ident)) else points
  }

  /** The downward loop. */
  function Purge(points: seq<Point>, session: NodeId, i: nat): seq<Point>
    requires i <= |points|
    decreases i
  {
    if i == 0 then points else Purge(PurgeOne(points, session, i), session, i - 1)
  }

  function Others(points: seq<Point>, session: NodeId): seq<Point> {
    if points == [] then []
    else
      var last := points[|points| - 1];
      Others(points[..|points| - 1], session) + (if last.session == session then [] else [last])
  }

  /** No point of another session comes before one of this session with the same identifier. */
  ghost predicate Unshadowed(points: seq<Point>, session: NodeId) {
    forall j, k :: 0 <= j < k < |points| && points[k].session == session && points[j].ident == points[k].ident ==>
      points[j].session == session
  }

  lemma {:induction false} OthersOfSum(a: seq<Point>, b: seq<Point>, session: NodeId)
    ensures Others(a + b, session) == Others(a, session) + Others(b, session)
  {
    if b == [] {
      assert a + b == a;
    } else {
      var n := |b| - 1;
      assert (a + b)[..|a + b| - 1] == a + b[..n];
      OthersOfSum(a, b[..n], session);
    }
  }

  lemma OthersWithout(points: seq<Point>, i: nat, session: NodeId)
    requires i < |points|
    ensures points[i].session == session ==> Others(WithoutAt(points, i), session) == Others(points, session)
    ensures points[i].session != session ==> |Others(WithoutAt(points, i), session)| < |Others(points, session)|
  {
    var a, p, b := points[..i], points[i], points[i + 1..];
    assert points == a + ([p] + b);
    OthersAround(a, p, b, session);
  }

  lemma OthersAround(a: seq<Point>, p: Point, b: seq<Point>, session: NodeId)
    ensures Others(a + ([p] + b), session) == Others(a, session) + ((if p.session == session then [] else [p]) + Others(b, session))
    ensures Others(a + b, session) == Others(a, session) + Others(b, session)
    ensures p.session == session ==> Others(a + ([p] + b), session) == Others(a + b, session)
  {
    OthersOfSum(a, [p] + b, session);
    OthersOfSum([p], b, session);
    OthersOfSum(a, b, session);
    assert [p][..0] == [];
    assert Others([p], session) == if p.session == session then [] else [p];
    assert [] + Others(b, session) == Others(b, session);
  }

  /** `a` has no more points of other sessions than `b`, or fewer. */
  ghost predicate NotMore(a: seq<Point>, b: seq<Point>, session: NodeId) {
    forall k {:trigger Unsealed(k)} :: Unsealed(k) ==> |Others(a, session)| <= |Others(b, session)|
  }

  ghost predicate Fewer(a: seq<Point>, b: seq<Point>, session: NodeId) {
    forall k {:trigger Unsealed(k)} :: Unsealed(k) ==> |Others(a, session)| < |Others(b, session)|
  }

  lemma MoreOn(a: seq<Point>, b: seq<Point>, c: seq<Point>, session: NodeId)
    ensures NotMore(a, a, session)
    ensures NotMore(a, b, session) && NotMore(b, c, session) ==> NotMore(a, c, session)
    ensures NotMore(a, b, session) && Fewer(b, c, session) ==> Fewer(a, c, session)
    ensures Fewer(a, b, session) && NotMore(b, c, session) ==> Fewer(a, c, session)
    ensures Fewer(a, b, session) ==> |Others(a, session)| < |Others(b, session)|
  {
    assert Unsealed(Seal);
  }

  lemma PurgeOneShrinks(points: seq<Point>, session: NodeId, i: nat)
    requires 0 < i <= |points|
    ensures NotMore(PurgeOne(points, session, i), points, session)
  {
    OthersWithout(points, FirstAt(points, points[i - 1].ident), session);
  }

  lemma {:induction false} PurgeShrinks(points: seq<Point>, session: NodeId, i: nat)
    requires i <= |points|
    ensures NotMore(Purge(points, session, i), points, session)
    decreases i
  {
    if i > 0 {
      var rest := PurgeOne(points, session, i);
      PurgeOneShrinks(points, session, i);
      PurgeShrinks(rest, session, i - 1);
      MoreOn(Purge(rest, session, i - 1), rest, points, session);
    }
  }

  /** The loop has dealt with the places from `i` on. */
  ghost predicate DoneFrom(points: seq<Point>, session: NodeId, i: nat) {
    i <= |points| && forall k :: i <= k < |points| ==> points[k].session != session
  }

  lemma ShiftedAt(points: seq<Point>, f: nat, k: nat)
    requires f < |points| && k < |points| && f != k
    ensures var k1 := if f < k then k - 1 else k;
      k1 < |WithoutAt(points, f)| && WithoutAt(points, f)[k1] == points[k]
  {
  }

  lemma PurgeOneExact(points: seq<Point>, session: NodeId, i: nat)
    requires DoneFrom(points, session, i) && Unshadowed(points, session) && i > 0
    ensures var rest := PurgeOne(points, session, i);
      && DoneFrom(rest, session, i - 1) && Unshadowed(rest, session)
      && Others(rest, session) == Others(points, session)
  {
    var f := FirstAt(points, points[i - 1].ident);
    OthersWithout(points, f, session);
  }

  lemma {:induction false} PurgeExact(points: seq<Point>, session: NodeId, i: nat)
    requires DoneFrom(points, session, i) && Unshadowed(points, session)
    ensures Purge(points, session, i) == Others(points, session)
    decreases i
  {
    if i == 0 {
      AllOthers(points, session);
    } else {
      PurgeOneExact(points, session, i);
      PurgeExact(PurgeOne(points, session, i), session, i - 1);
    }
  }

  /** However many foreign points shadow them, no point of the session is left. */
  lemma {:induction false} PurgeLeavesNone(points: seq<Point>, session: NodeId, i: nat)
    requires DoneFrom(points, session, i)
    ensures forall p :: p in Purge(points, session, i) ==> p in points && p.session != session
    decreases i
  {
    if i > 0 {
      var rest := PurgeOne(points, session, i);
      forall k | i - 1 <= k < |rest|
        ensures rest[k].session != session
      {
        assert rest == points || rest[k] == points[k + 1];
      }
      PurgeLeavesNone(rest, session, i - 1);
    }
  }

  lemma {:induction false} AllOthers(points: seq<Point>, session: NodeId)
    requires forall k :: 0 <= k < |points| ==> points[k].session != session
    ensures Others(points, session) == points
  {
    if points != [] {
      AllOthers(points[..|points| - 1], session);
    }
  }

  ghost predicate Shadows(points: seq<Point>, session: NodeId, j: nat, k: nat) {
    j < k < |points| && points[k].session == session && points[j].session != session && points[j].ident == points[k].ident
  }

  /** An iteration loses a foreign point or leaves the shadow. */
  lemma PurgeOneLoses(points: seq<Point>, session: NodeId, i: nat, j: nat, k: nat) returns (j1: nat, k1: nat)
    requires DoneFrom(points, session, i) && Shadows(points, session, j, k) && k < i
    ensures var rest := PurgeOne(points, session, i);
      || Fewer(rest, points, session)
      || (DoneFrom(rest, session, i - 1) && Shadows(rest, session, j1, k1) && k1 < i - 1)
  {
    j1, k1 := j, k;
    if points[i - 1].session == session {
      var f := FirstAt(points, points[i - 1].ident);
      OthersWithout(points, f, session);
      if points[f].session == session {
        j1, k1 := if f < j then j - 1 else j, if f < k then k - 1 else k;
        ShiftedAt(points, f, j);
        ShiftedAt(points, f, k);
      }
    }
  }

  /** A foreign point stands before one of the session that is still to be dealt with. */
  ghost predicate Shadowed(points: seq<Point>, session: NodeId, i: nat) {
    forall s {:trigger Unsealed(s)} :: Unsealed(s) ==>
      DoneFrom(points, session, i) && exists j: nat, k: nat :: Shadows(points, session, j, k) && k < i
  }

  lemma ShadowedStep(points: seq<Point>, session: NodeId, i: nat) returns (rest: seq<Point>)
    requires Shadowed(points, session, i)
    ensures 0 < i <= |points| && i - 1 <= |rest| && Purge(points, session, i) == Purge(rest, session, i - 1)
    ensures Fewer(rest, points, session) || (Shadowed(rest, session, i - 1) && NotMore(rest, points, session))
  {
    assert Unsealed(Seal);
    var j: nat, k: nat :| Shadows(points, session, j, k) && k < i;
    rest := PurgeOne(points, session, i);
    var j1, k1 := PurgeOneLoses(points, session, i, j, k);
    PurgeOneShrinks(points, session, i);
  }

  /** While a foreign point stands before one of the session with the same identifier, the loop
      cannot remove the latter without losing some foreign point. */
  lemma {:induction false} PurgeLoses(points: seq<Point>, session: NodeId, i: nat)
    requires Shadowed(points, session, i)
    ensures i <= |points| && Fewer(Purge(points, session, i), points, session) == true
    decreases i
  {
    var rest := ShadowedStep(points, session, i);
    MoreOn(Purge(points, session, i), rest, points, session);
    if Fewer(rest, points, session) {
      PurgeShrinks(rest, session, i - 1);
    } else {
      PurgeLoses(rest, session, i - 1);
    }
  }

  /** Removing by session removes exactly the points of the session if and only if none of these is
      shadowed by an earlier point of another session with the same identifier. */
  lemma PurgeIffUnshadowed(points: seq<Point>, session: NodeId)
    ensures Purge(points, session, |points|) == Others(points, session) <==> Unshadowed(points, session)
  {
    if Unshadowed(points, session) {
      PurgeExact(points, session, |points|);
    } else {
      var j, k :| 0 <= j < k < |points| && points[k].session == session
        && points[j].ident == points[k].ident && points[j].session != session;
      assert Shadows(points, session, j, k);
      PurgeLoses(points, session, |points|);
      MoreOn(Purge(points, session, |points|), points, points, session);
      OthersTwice(points, session);
    }
  }

  lemma {:induction false} OthersTwice(points: seq<Point>, session: NodeId)
    ensures Others(Others(points, session), session) == Others(points, session)
  {
    if points != [] {
      var init, last := points[..|points| - 1], points[|points| - 1];
      OthersTwice(init, session);
      if last.session != session {
        OthersOfSum(Others(init, session), [last], session);
        assert [last][..0] == [];
        assert Others([last], session) == [last];
      } else {
        assert Others(init, session) + [] == Others(init, session);
      }
    }
  }

  // ----- The table -----

  /** The counter is not initialised, so that it may start anywhere. */
  class Continuer {
    var points: seq<Point>
    var capacity: nat
    var counter: nat

    ghost predicate Valid()
      reads this
    {
      |points| <= capacity && counter < UINT32
    }

    ghost function State(): Table
      reads this
    {
      Table(points, counter)
    }

    constructor (garbage: nat)
      requires garbage < UINT32
      ensures Valid() && State() == Table([], garbage)
    {
      points, capacity, counter := [], 0, garbage;
    }

    /** The index counts down to its leading digit while the digits are counted. */
    method MakeIdent() returns (id: Ident)
      requires Valid()
      ensures id == IdentOf(counter)
    {
      var divisions := 1;
      var index := Signed((counter + 1) % UINT32);
      ghost var start := index;
      while Tenth(index) != 0
        invariant divisions >= 1 && Reduced(index, divisions) == Reduced(start, 1)
        decreases if index >= 0 then index else -index
      {
        divisions := divisions + 1;
        index := Tenth(index);
      }
      ReducedIsShort(start, 1);
      id := Zeroed(Short(index), divisions);
    }

    /** Whether two identifiers have the same bytes. */
    method SameBytes(a: Ident, b: Ident) returns (same: bool)
      ensures same <==> a == b
    {
      if |a| != |b| {
        return false;
      }
      var j := 0;
      while j < |a|
        invariant 0 <= j <= |a| && a[..j] == b[..j]
      {
        if a[j] != b[j] {
          return false;
        }
        j := j + 1;
      }
      assert a == a[..j] && b == b[..j];
      return true;
    }

    method AddContinuationPoint(alias: map<NodeId, NodeId>, request: Request, session: NodeId, batch: int, offset: nat)
      returns (id: Ident)
      requires Valid()
      modifies this
      ensures Valid() && id == IdentOf(old(counter))
      ensures State() == Table(old(points) + [Point(id, Continued(alias, request), session, batch, offset)],
        (old(counter) + 1) % UINT32)
    {
      var kept := request.(refType := NULL_ID);
      if request.node in alias {
        kept := kept.(node := alias[request.node]);
      }
      id := MakeIdent();
      if |points| >= capacity {
        capacity := capacity + 10;
      }
      points := points + [Point(id, kept, session, batch, offset)];
      counter := (counter + 1) % UINT32;
    }

    /** The point resumes at another reference next time. */
    method Advance(i: nat, offset: nat)
      requires Valid() && i < |points|
      modifies `points
      ensures Valid() && points == old(points)[i := old(points)[i].(offset := offset)]
    {
      points := points[i := points[i].(offset := offset)];
    }

    method GetContinuationPoint(id: Ident) returns (i: nat)
      requires Valid()
      ensures i == FirstAt(points, id)
    {
      i := 0;
      while i < |points|
        invariant i <= |points|
        invariant forall j :: 0 <= j < i ==> points[j].ident != id
      {
        var same := SameBytes(points[i].ident, id);
        if same {
          return;
        }
        i := i + 1;
      }
    }

    method RemoveContinuationPoint(id: Ident)
      requires Valid()
      modifies `points
      ensures Valid() && points == WithoutAt(old(points), FirstAt(old(points), id))
    {
      var i := GetContinuationPoint(id);
      if i < |points| {
        CloseGap(i);
      }
    }

    /** Shifts the later points down over the removed one. */
    method CloseGap(i: nat)
      requires i < |points|
      modifies `points
      ensures points == WithoutAt(old(points), i)
    {
      ghost var was := points;
      var j := i + 1;
      while j < |points|
        invariant i < j <= |points| == |was|
        invariant points == was[..i] + was[i + 1..j] + was[j - 1..]
      {
        assert was[i + 1..j + 1] == was[i + 1..j] + [was[j]];
        points := points[j - 1 := points[j]];
        j := j + 1;
      }
      points := points[..|points| - 1];
    }

    method RemoveBySession(session: NodeId)
      requires Valid()
      modifies `points
      ensures Valid() && points == Purge(old(points), session, |old(points)|)
      ensures points == Others(old(points), session) <==> Unshadowed(old(points), session)
    {
      PurgeIffUnshadowed(points, session);
      PurgeDownwards(session);
    }

    method PurgeDownwards(session: NodeId)
      requires Valid()
      modifies `points
      ensures Valid() && points == Purge(old(points), session, |old(points)|)
    {
      ghost var goal := Purge(points, session, |points|);
      var i := |points|;
      while i > 0
        invariant Valid() && 0 <= i <= |points| && Purge(points, session, i) == goal
      {
        ghost var next := PurgeOne(points, session, i);
        if points[i - 1].session == session {
          RemoveContinuationPoint(points[i - 1].ident);
        }
        assert points == next;
        i := i - 1;
      }
    }
  }
}
