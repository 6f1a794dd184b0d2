/**
 * The request-level rules of the views: the home page's top four
 * restaurants by book count, and the restaurant page's handling of a
 * customer's draft order (the option change and the add/remove item
 * actions carried by a GET request).
 */
module Views {
  import opened Wrappers
  import N = Notation
  import O = Orders
  import R = Restaurants
  import W = WorkingTimes

  // ---------------------------------------------------------------------
  // index: sorted([(books, restaurant) ...])[-4:][::-1]
  // ---------------------------------------------------------------------

  /** A restaurant with the number of books that list it. */
  datatype Ranked = Ranked(books: nat, restaurant: N.RestaurantId)

  /** The pairs the home page ranks, one per restaurant, in table order. */
  function Rankings(restaurants: seq<N.RestaurantId>, all: seq<N.Book>): (s: seq<Ranked>)
    ensures |s| == |restaurants|
    ensures forall i :: 0 <= i < |s| ==>
      s[i].restaurant == restaurants[i] && s[i].books == N.BookCount(all, restaurants[i])
  {
    seq(|restaurants|, i requires 0 <= i < |restaurants| =>
      Ranked(N.ComputedNotation(all, restaurants[i]).books, restaurants[i]))
  }

  predicate Ascending(s: seq<Ranked>)
  {
    forall i, j :: 0 <= i < j < |s| ==> s[i].books <= s[j].books
  }

  /** x placed into an ascending sequence, before the first entry with as many books or more. */
  function Insert(x: Ranked, t: seq<Ranked>): seq<Ranked>
    decreases |t|
  {
    if t == [] || x.books <= t[0].books then [x] + t else [t[0]] + Insert(x, t[1..])
  }

  predicate AtLeast(lb: nat, t: seq<Ranked>)
  {
    forall k :: 0 <= k < |t| ==> lb <= t[k].books
  }

  lemma ConsAscending(a: Ranked, r: seq<Ranked>)
    requires Ascending(r) && AtLeast(a.books, r)
    ensures Ascending([a] + r)
  {
    forall i, j | 0 <= i < j < |[a] + r| ensures ([a] + r)[i].books <= ([a] + r)[j].books {
      if i > 0 {
        assert ([a] + r)[i] == r[i - 1];
      }
      assert ([a] + r)[j] == r[j - 1];
    }
  }

  lemma {:induction false} InsertAtLeast(lb: nat, x: Ranked, t: seq<Ranked>)
    requires AtLeast(lb, t) && lb <= x.books
    ensures AtLeast(lb, Insert(x, t))
    decreases |t|
  {
    if t != [] && x.books > t[0].books {
      InsertAtLeast(lb, x, t[1..]);
      var rest := Insert(x, t[1..]);
      assert Insert(x, t) == [t[0]] + rest;
      forall k | 0 <= k < |[t[0]] + rest| ensures lb <= ([t[0]] + rest)[k].books {
        if k > 0 {
          assert ([t[0]] + rest)[k] == rest[k - 1];
        }
      }
    }
  }

  /** Inserting keeps the order ascending. */
  lemma {:induction false} InsertAscending(x: Ranked, t: seq<Ranked>)
    requires Ascending(t)
    ensures Ascending(Insert(x, t))
    decreases |t|
  {
    if t == [] || x.books <= t[0].books {
      ConsAscending(x, t);
    } else {
      InsertAscending(x, t[1..]);
      InsertAtLeast(t[0].books, x, t[1..]);
      ConsAscending(t[0], Insert(x, t[1..]));
    }
  }

  /** Inserting adds exactly x. */
  lemma {:induction false} InsertPermutes(x: Ranked, t: seq<Ranked>)
    ensures multiset(Insert(x, t)) == multiset(t) + multiset{x}
    decreases |t|
  {
    if t != [] && x.books > t[0].books {
      InsertPermutes(x, t[1..]);
      assert t == [t[0]] + t[1..];
      assert Insert(x, t) == [t[0]] + Insert(x, t[1..]);
    }
  }

  /** The rankings in ascending order of books (insertion sort). */
  function Sort(s: seq<Ranked>): seq<Ranked>
    decreases |s|
  {
    if s == [] then [] else Insert(s[0], Sort(s[1..]))
  }

  /** Sorting yields an ascending permutation of its input. */
  lemma {:induction false} SortSorted(s: seq<Ranked>)
    ensures Ascending(Sort(s)) && multiset(Sort(s)) == multiset(s) && |Sort(s)| == |s|
    decreases |s|
  {
    if s != [] {
      SortSorted(s[1..]);
      InsertAscending(s[0], Sort(s[1..]));
      InsertPermutes(s[0], Sort(s[1..]));
      assert s == [s[0]] + s[1..];
      assert |Sort(s)| == |multiset(Sort(s))|;
    }
  }

  function Reverse(s: seq<Ranked>): (r: seq<Ranked>)
    ensures |r| == |s| && forall i :: 0 <= i < |s| ==> r[i] == s[|s| - 1 - i]
    decreases |s|
  {
    if s == [] then [] else Reverse(s[1..]) + [s[0]]
  }

  lemma {:induction false} ReverseMultiset(s: seq<Ranked>)
    ensures multiset(Reverse(s)) == multiset(s)
    decreases |s|
  {
    if s != [] {
      ReverseMultiset(s[1..]);
      assert s == [s[0]] + s[1..];
    }
  }

  function Min(a: nat, b: nat): nat { if a <= b then a else b }

  const TOP: nat := 4

  /** The home page's list, ranked by book count alone: the last four of
      the ascending order, most books first. */
  function Index(rankings: seq<Ranked>): seq<Ranked>
  {
    var t := Sort(rankings);
    Reverse(t[|t| - Min(TOP, |t|)..])
  }

  predicate Descending(s: seq<Ranked>)
  {
    forall i, j :: 0 <= i < j < |s| ==> s[i].books >= s[j].books
  }

  lemma ReverseDescending(s: seq<Ranked>)
    requires Ascending(s)
    ensures Descending(Reverse(s))
  {
    var r := Reverse(s);
    forall i, j | 0 <= i < j < |r| ensures r[i].books >= r[j].books {
      assert r[i] == s[|s| - 1 - i] && r[j] == s[|s| - 1 - j];
    }
  }

  /** In an ascending sequence, nothing before position k has more books than anything from k on. */
  lemma SplitAscending(t: seq<Ranked>, k: nat)
    requires Ascending(t) && k <= |t|
    ensures forall x, y :: x in multiset(t[..k]) && y in multiset(t[k..]) ==> x.books <= y.books
  {
    forall x, y | x in multiset(t[..k]) && y in multiset(t[k..]) ensures x.books <= y.books {
      assert x in t[..k];
      var a :| 0 <= a < k && t[..k][a] == x;
      assert y in t[k..];
      var b :| 0 <= b < |t| - k && t[k..][b] == y;
      assert t[a] == x && t[k + b] == y;
    }
  }

  /** The home page lists min(4, n) of the n restaurants, most books first,
      each of them a restaurant of the input, and no restaurant left out
      has more books than one listed. */
  lemma IndexIsTopFour(rankings: seq<Ranked>)
    ensures |Index(rankings)| == Min(TOP, |rankings|)
    ensures Descending(Index(rankings))
    ensures multiset(Index(rankings)) <= multiset(rankings)
    ensures forall x, y :: x in multiset(rankings) - multiset(Index(rankings)) && y in Index(rankings) ==>
      x.books <= y.books
  {
    var t := Sort(rankings);
    SortSorted(rankings);
    var k := |t| - Min(TOP, |t|);
    var low, top := t[..k], t[k..];
    var r := Index(rankings);
    assert r == Reverse(top);
    assert Ascending(top);
    ReverseDescending(top);
    assert t == low + top;
    ReverseMultiset(top);
    assert multiset(t) == multiset(low) + multiset(top);
    assert multiset(rankings) - multiset(r) == multiset(low);
    SplitAscending(t, k);
    forall y | y in r ensures y in multiset(top) {
      assert y in multiset(r);
    }
  }

  /** Sorting the pairs compares a restaurant with a restaurant. */
  datatype SortError = TypeError

  /** y is another restaurant with as many books as x. */
  predicate Ties(x: Ranked, y: Ranked)
  {
    x.books == y.books && x.restaurant != y.restaurant
  }

  /** Two different restaurants with the same number of books. */
  predicate HasTie(rankings: seq<Ranked>)
  {
    exists x, y :: x in rankings && y in rankings && Ties(x, y)
  }

  predicate TiesWithSome(x: Ranked, t: seq<Ranked>)
  {
    exists y :: y in t && Ties(x, y)
  }

  /** `a < b` on two (books, restaurant) tuples: unequal counts decide, a
      pair is not less than itself, and on equal counts the two Restaurant
      objects are compared, which define no order: TypeError. */
  function TupleLess(a: Ranked, b: Ranked): (r: Result<bool, SortError>)
    ensures r.Failure? <==> Ties(a, b)
    ensures r.Success? ==> (r.value <==> a.books < b.books)
  {
    if a.books != b.books then Success(a.books < b.books)
    else if a.restaurant == b.restaurant then Success(false)
    else Failure(TypeError)
  }

  /** x moved past each entry t[0] for which `t[0] < x` holds, comparing as
      it goes; a failed comparison ends the sort. */
  function InsertAsWritten(x: Ranked, t: seq<Ranked>): Result<seq<Ranked>, SortError>
    decreases |t|
  {
    if t == [] then Success([x])
    else
      match TupleLess(t[0], x)
      case Failure(e) => Failure(e)
      case Success(past) =>
        if !past then Success([x] + t)
        else
          match InsertAsWritten(x, t[1..])
          case Failure(e) => Failure(e)
          case Success(r) => Success([t[0]] + r)
  }

  /** `sorted` on the tuples, by insertion with the tuple comparison. */
  function SortAsWritten(s: seq<Ranked>): Result<seq<Ranked>, SortError>
    decreases |s|
  {
    if s == [] then Success([])
    else
      match SortAsWritten(s[1..])
      case Failure(e) => Failure(e)
      case Success(t) => InsertAsWritten(s[0], t)
  }

  /** In an ascending list without ties, inserting x fails exactly when x
      ties with an entry, and otherwise places it as Insert does. */
  lemma {:induction false} InsertAsWrittenTies(x: Ranked, t: seq<Ranked>)
    requires Ascending(t) && !HasTie(t)
    ensures InsertAsWritten(x, t).Failure? <==> TiesWithSome(x, t)
    ensures InsertAsWritten(x, t).Success? ==> InsertAsWritten(x, t).value == Insert(x, t)
    decreases |t|
  {
    if t != [] {
      assert t == [t[0]] + t[1..];
      if t[0].books < x.books {
        assert Ascending(t[1..]) by {
          forall i, j | 0 <= i < j < |t[1..]| ensures t[1..][i].books <= t[1..][j].books {
            assert t[1..][i] == t[i + 1] && t[1..][j] == t[j + 1];
          }
        }
        assert !HasTie(t[1..]) by {
          forall y, z | y in t[1..] && z in t[1..] ensures !Ties(y, z) {
            assert y in t && z in t;
          }
        }
        InsertAsWrittenTies(x, t[1..]);
        assert TiesWithSome(x, t) <==> TiesWithSome(x, t[1..]) by {
          forall y | y in t ensures Ties(x, y) ==> y in t[1..] {
            if y != t[0] {
              assert y in t[1..];
            }
          }
        }
      } else if t[0].books > x.books {
        forall y | y in t ensures !Ties(x, y) {
          var k :| 0 <= k < |t| && t[k] == y;
          assert t[0].books <= t[k].books;
        }
      } else if t[0].restaurant == x.restaurant {
        forall y | y in t ensures !Ties(x, y) {
          assert t[0] in t && !Ties(t[0], y);
        }
      } else {
        assert t[0] in t && Ties(x, t[0]);
      }
    }
  }

  /** The written sort fails exactly when two restaurants tie, and
      otherwise orders the pairs as sorting by book count alone does. */
  lemma {:induction false} SortAsWrittenTies(s: seq<Ranked>)
    ensures SortAsWritten(s).Failure? <==> HasTie(s)
    ensures SortAsWritten(s).Success? ==> SortAsWritten(s).value == Sort(s)
    decreases |s|
  {
    if s != [] {
      var rest := s[1..];
      assert s == [s[0]] + rest;
      assert forall y :: y in s <==> y == s[0] || y in rest;
      SortAsWrittenTies(rest);
      if SortAsWritten(rest).Failure? {
        var y, z :| y in rest && z in rest && Ties(y, z);
        assert y in s && z in s;
      } else {
        var t := Sort(rest);
        SortSorted(rest);
        assert forall y :: y in t <==> y in rest by {
          forall y ensures y in t <==> y in rest {
            assert y in t <==> y in multiset(t);
            assert y in rest <==> y in multiset(rest);
          }
        }
        InsertAsWrittenTies(s[0], t);
        assert TiesWithSome(s[0], t) <==> TiesWithSome(s[0], rest);
        if HasTie(s) {
          var y, z :| y in s && z in s && Ties(y, z);
          if y == s[0] {
            assert z in rest;
          } else {
            assert y in rest && z == s[0] && Ties(s[0], y);
          }
        }
        if TiesWithSome(s[0], rest) {
          var y :| y in rest && Ties(s[0], y);
          assert s[0] in s && y in s;
        }
      }
    }
  }

  /** The index expression as written: `sorted` on the tuples, then the
      last four, most books first. */
  function IndexAsWritten(rankings: seq<Ranked>): Result<seq<Ranked>, SortError>
  {
    match SortAsWritten(rankings)
    case Failure(e) => Failure(e)
    case Success(t) => Success(Reverse(t[|t| - Min(TOP, |t|)..]))
  }

  /** As written, the home page fails with TypeError exactly when two
      restaurants share a book count; otherwise it is the ranking by book
      count alone. */
  lemma IndexAsWrittenTies(rankings: seq<Ranked>)
    ensures IndexAsWritten(rankings).Failure? <==> HasTie(rankings)
    ensures IndexAsWritten(rankings).Success? ==> IndexAsWritten(rankings).value == Index(rankings)
  {
    SortAsWrittenTies(rankings);
  }

  /** With no books, every restaurant has a count of 0. */
  lemma NoBooksNoCounts(restaurants: seq<N.RestaurantId>)
    ensures forall i :: 0 <= i < |restaurants| ==> Rankings(restaurants, [])[i] == Ranked(0, restaurants[i])
  {
  }

  /** Two restaurants and no books at all: the home page cannot be built as
      written, while ranking by book count alone lists both. */
  lemma TiedRankingFails()
    ensures IndexAsWritten(Rankings([1, 2], [])).Failure?
    ensures |Index(Rankings([1, 2], []))| == 2
  {
    var rs := Rankings([1, 2], []);
    NoBooksNoCounts([1, 2]);
    assert rs[0] in rs && rs[1] in rs && Ties(rs[0], rs[1]);
    IndexAsWrittenTies(rs);
    IndexIsTopFour(rs);
  }

  // ---------------------------------------------------------------------
  // restaurant_page: the GET actions on the customer's draft order
  // ---------------------------------------------------------------------

  /** The codes of Order.ORDER_OPTIONS: none, delivery, pick-up. */
  const ORDER_OPTIONS: seq<string> := ["", "d", "p"]

  /** The option change is taken when the requested value differs from the
      current one, is non-empty and is one of the option codes. */
  predicate AcceptOption(current: string, requested: string)
  {
    current != requested && requested != "" && requested in ORDER_OPTIONS
  }

  /** In effect only a change to delivery or to pick-up is accepted. */
  lemma AcceptOptionIff(current: string, requested: string)
    ensures AcceptOption(current, requested) <==> (requested == "d" || requested == "p") && requested != current
  {
    assert ORDER_OPTIONS[0] == "" && ORDER_OPTIONS[1] == "d" && ORDER_OPTIONS[2] == "p";
  }

  /** The action a GET request asks for. */
  datatype Action = ChooseOption(option: string) | AddLine(itemKey: string) | RemoveLine(lineKey: string) | Ignore

  /** `option` wins over `add_item`, which wins over `remove_item`; a
      request with none of them asks for nothing. */
  function Dispatch(get: map<string, string>): (a: Action)
    ensures a.ChooseOption? <==> "option" in get
    ensures a.AddLine? <==> "option" !in get && "add_item" in get
    ensures a.RemoveLine? <==> "option" !in get && "add_item" !in get && "remove_item" in get
    ensures a.ChooseOption? ==> a.option == get["option"]
    ensures a.AddLine? ==> a.itemKey == get["add_item"]
    ensures a.RemoveLine? ==> a.lineKey == get["remove_item"]
  {
    if "option" in get then ChooseOption(get["option"])
    else if "add_item" in get then AddLine(get["add_item"])
    else if "remove_item" in get then RemoveLine(get["remove_item"])
    else Ignore
  }

  // ---------------------------------------------------------------------
  // int() on the text of a request parameter, as the pk lookup applies it
  // ---------------------------------------------------------------------

  /** The ASCII characters str.isspace holds for, which int() strips. */
  predicate IsSpace(c: char)
  {
    c == ' ' || 9 <= c as int <= 13 || 28 <= c as int <= 31
  }

  predicate AllSpaces(s: string)
  {
    forall i :: 0 <= i < |s| ==> IsSpace(s[i])
  }

  /** s without its leading white space. */
  function TrimLeft(s: string): string
    decreases |s|
  {
    if s != [] && IsSpace(s[0]) then TrimLeft(s[1..]) else s
  }

  /** s without its trailing white space. */
  function TrimRight(s: string): string
    decreases |s|
  {
    if s != [] && IsSpace(s[|s| - 1]) then TrimRight(s[..|s| - 1]) else s
  }

  /** TrimLeft drops a prefix of white space and stops at a character that is none. */
  lemma {:induction false} TrimLeftShape(s: string)
    ensures var t := TrimLeft(s);
      && |t| <= |s| && t == s[|s| - |t|..] && AllSpaces(s[..|s| - |t|])
      && (t == [] || !IsSpace(t[0]))
    decreases |s|
  {
    if s != [] && IsSpace(s[0]) {
      TrimLeftShape(s[1..]);
      var t := TrimLeft(s[1..]);
      assert s[..|s| - |t|] == [s[0]] + s[1..][..|s| - 1 - |t|];
    }
  }

  /** TrimRight drops a suffix of white space and stops at a character that is none. */
  lemma {:induction false} TrimRightShape(s: string)
    ensures var t := TrimRight(s);
      && |t| <= |s| && t == s[..|t|] && AllSpaces(s[|t|..])
      && (t == [] || !IsSpace(t[|t| - 1]))
    decreases |s|
  {
    if s != [] && IsSpace(s[|s| - 1]) {
      TrimRightShape(s[..|s| - 1]);
      var t := TrimRight(s[..|s| - 1]);
      assert s[|t|..] == s[..|s| - 1][|t|..] + [s[|s| - 1]];
    }
  }

  /** `digit ("_"? digit)*`: the digits int() reads, with single
      underscores allowed between two digits. */
  predicate IsNumeral(b: string)
  {
    && b != [] && W.IsDigit(b[0]) && W.IsDigit(b[|b| - 1])
    && (forall i :: 0 <= i < |b| ==> W.IsDigit(b[i]) || b[i] == '_')
    && (forall i :: 0 <= i < |b| - 1 && b[i] == '_' ==> b[i + 1] != '_')
  }

  /** The value of a numeral, underscores skipped. */
  function NumeralValue(b: string): nat
    decreases |b|
  {
    if b == [] then 0
    else if b[|b| - 1] == '_' then NumeralValue(b[..|b| - 1])
    else 10 * NumeralValue(b[..|b| - 1]) + W.DigitValue(b[|b| - 1])
  }

  lemma {:induction false} NumeralOfDigits(b: string)
    requires forall i :: 0 <= i < |b| ==> W.IsDigit(b[i])
    ensures NumeralValue(b) == W.Value(b)
    decreases |b|
  {
    if b != [] {
      NumeralOfDigits(b[..|b| - 1]);
    }
  }

  /** s without the white space around it. */
  function Strip(s: string): string
  {
    TrimRight(TrimLeft(s))
  }

  /** int() on stripped text: an optional sign, then a numeral. */
  function ReadInt(t: string): Option<int>
  {
    if t != [] && t[0] == '-' && IsNumeral(t[1..]) then Some(-(NumeralValue(t[1..]) as int))
    else if t != [] && t[0] == '+' && IsNumeral(t[1..]) then Some(NumeralValue(t[1..]))
    else if IsNumeral(t) then Some(NumeralValue(t))
    else None
  }

  /** int(s) for a primary key: white space around the number is stripped,
      a sign may lead it, and single underscores may separate its digits;
      any other text makes the lookup raise ValueError (None). */
  function ParseKey(s: string): Option<int>
  {
    ReadInt(Strip(s))
  }

  lemma {:induction false} TrimLeftSpaces(pre: string, u: string)
    requires AllSpaces(pre) && (u == [] || !IsSpace(u[0]))
    ensures TrimLeft(pre + u) == u
    decreases |pre|
  {
    if pre != [] {
      assert (pre + u)[1..] == pre[1..] + u;
      TrimLeftSpaces(pre[1..], u);
    } else {
      assert pre + u == u;
    }
  }

  lemma {:induction false} TrimRightSpaces(u: string, post: string)
    requires AllSpaces(post) && (u == [] || !IsSpace(u[|u| - 1]))
    ensures TrimRight(u + post) == u
    decreases |post|
  {
    if post != [] {
      assert (u + post)[..|u + post| - 1] == u + post[..|post| - 1];
      TrimRightSpaces(u, post[..|post| - 1]);
    } else {
      assert u + post == u;
    }
  }

  /** White space around u, and none at its ends, is stripped to u. */
  lemma StripPadded(pre: string, u: string, post: string)
    requires AllSpaces(pre) && AllSpaces(post)
    requires u != [] && !IsSpace(u[0]) && !IsSpace(u[|u| - 1])
    ensures Strip(pre + u + post) == u
  {
    assert pre + u + post == pre + (u + post);
    TrimLeftSpaces(pre, u + post);
    TrimRightSpaces(u, post);
  }

  /** Text with no white space at its ends is left as it is. */
  lemma StripUnpadded(u: string)
    requires u != [] && !IsSpace(u[0]) && !IsSpace(u[|u| - 1])
    ensures Strip(u) == u
  {
  }

  lemma DigitsAreNumeral(s: string)
    requires s != [] && forall i :: 0 <= i < |s| ==> W.IsDigit(s[i])
    ensures IsNumeral(s) && NumeralValue(s) == W.Value(s)
  {
    NumeralOfDigits(s);
  }

  /** A sign, or none, before a numeral. */
  lemma ReadSigned(sign: string, d: string)
    requires IsNumeral(d) && (sign == "" || sign == "+" || sign == "-")
    ensures ReadInt(sign + d) == Some(if sign == "-" then -(NumeralValue(d) as int) else NumeralValue(d))
  {
    if sign != "" {
      assert (sign + d)[1..] == d;
    } else {
      assert sign + d == d;
    }
  }

  /** A key of bare digits reads as its decimal value. */
  lemma ParseKeyOfDigits(s: string)
    requires s != [] && forall i :: 0 <= i < |s| ==> W.IsDigit(s[i])
    ensures ParseKey(s) == Some(W.Value(s))
  {
    StripUnpadded(s);
    DigitsAreNumeral(s);
    ReadSigned("", s);
    assert "" + s == s;
  }

  /** A key written in decimal reads back as itself. */
  lemma ParseKeyRoundTrip(n: nat)
    ensures ParseKey(W.Decimal(n)) == Some(n)
  {
    W.DecimalDigits(n);
    W.ValueOfDecimal(n);
    ParseKeyOfDigits(W.Decimal(n));
  }

  /** A decimal number with an optional sign and white space around it
      reads back as the signed number. */
  lemma ParseKeySigned(pre: string, sign: string, n: nat, post: string)
    requires AllSpaces(pre) && AllSpaces(post)
    requires sign == "" || sign == "+" || sign == "-"
    ensures ParseKey(pre + sign + W.Decimal(n) + post) == Some(if sign == "-" then -(n as int) else n)
  {
    var d := W.Decimal(n);
    W.DecimalDigits(n);
    W.ValueOfDecimal(n);
    DigitsAreNumeral(d);
    var u := sign + d;
    assert u[|u| - 1] == d[|d| - 1];
    assert pre + sign + d + post == pre + u + post;
    StripPadded(pre, u, post);
    ReadSigned(sign, d);
  }

  /** Keys int() reads beyond bare digits: a sign, surrounding white space. */
  lemma SignedKeyExamples()
    ensures ParseKey("-1") == Some(-1) && ParseKey(" 5") == Some(5) && ParseKey("+5") == Some(5)
  {
    assert W.Decimal(1) == "1" && W.Decimal(5) == "5";
    ParseKeySigned("", "-", 1, "");
    assert "" + "-" + "1" + "" == "-1";
    ParseKeySigned(" ", "", 5, "");
    assert " " + "" + "5" + "" == " 5";
    ParseKeySigned("", "+", 5, "");
    assert "" + "+" + "5" + "" == "+5";
  }

  /** Underscores between digits are read too. */
  lemma UnderscoreKeyExample()
    ensures ParseKey("1_0") == Some(10)
  {
    StripUnpadded("1_0");
    assert "1_0"[..2] == "1_" && "1_"[..1] == "1" && "1"[..0] == "";
    assert IsNumeral("1_0");
    ReadSigned("", "1_0");
    assert "" + "1_0" == "1_0";
  }

  /** Leading zeros are read too. */
  lemma LeadingZerosKeyExample()
    ensures ParseKey("007") == Some(7)
  {
    ParseKeyOfDigits("007");
    assert "007"[..2] == "00" && "00"[..1] == "0" && "0"[..0] == "";
  }

  /** A text holding a character that is neither a digit, a sign nor an
      underscore is not a number. */
  lemma ReadIntRejects(t: string, j: nat)
    requires j < |t| && !(W.IsDigit(t[j]) || t[j] == '+' || t[j] == '-' || t[j] == '_')
    ensures ReadInt(t) == None
  {
    if j > 0 {
      assert t[1..][j - 1] == t[j];
    }
  }

  /** Keys int() refuses: empty or blank, doubled, leading or trailing
      underscores, and letters. */
  lemma RefusedKeyExamples()
    ensures ParseKey("") == None && ParseKey(" ") == None && ParseKey("1__0") == None
    ensures ParseKey("_1") == None && ParseKey("1_") == None && ParseKey("5a") == None
  {
    assert TrimLeft(" ") == "" by { assert " "[1..] == ""; }
    StripUnpadded("1__0");
    assert "1__0"[1] == '_' && "1__0"[2] == '_';
    StripUnpadded("_1");
    StripUnpadded("1_");
    StripUnpadded("5a");
    ReadIntRejects("5a", 1);
  }

  /** A key holding a character that is neither a digit, white space, a
      sign nor an underscore is refused. */
  lemma ParseKeyRejects(s: string, i: nat)
    requires i < |s| && !(W.IsDigit(s[i]) || IsSpace(s[i]) || s[i] == '+' || s[i] == '-' || s[i] == '_')
    ensures ParseKey(s) == None
  {
    var l := TrimLeft(s);
    TrimLeftShape(s);
    var t := TrimRight(l);
    TrimRightShape(l);
    var a := |s| - |l|;
    assert s[..a] + l == s;
    assert !IsSpace((s[..a] + l)[i]);
    assert i >= a;
    assert l[i - a] == s[i];
    assert t + l[|t|..] == l;
    assert !IsSpace((t + l[|t|..])[i - a]);
    assert i - a < |t|;
    assert t[i - a] == s[i];
    ReadIntRejects(t, i - a);
  }

  /** How a handled GET request ends: redirected back to the page, or with
      the ValueError a key int() cannot read raises. */
  datatype Outcome = Redirected | ValueError

  /** The effect of one GET action on a valid order. */
  ghost function Step(a: Action, s: O.OrderState, catalog: O.Catalog, restaurant: O.RestaurantId): (Outcome, O.OrderState)
    requires forall i :: i in s.lines ==> i in catalog
  {
    match a
    case ChooseOption(v) =>
      (Redirected, if AcceptOption(s.option, v) then s.(option := v) else s)
    case AddLine(key) =>
      (match ParseKey(key)
       case None => (ValueError, s)
       case Some(item) =>
         if item < 0 then (Redirected, s) else
         var m := O.AddedLines(s.lines, s.nextLine, item, catalog, restaurant);
         (Redirected, s.(lines := m, nextLine := O.AddedNext(s.lines, s.nextLine, item, catalog, restaurant),
                         totalPrice := O.Sum(m))))
    case RemoveLine(key) =>
      (match ParseKey(key)
       case None => (ValueError, s)
       case Some(id) =>
         if id < 0 then (Redirected, s) else
         var m := O.RemovedLines(s.lines, id, catalog);
         (Redirected, s.(lines := m, totalPrice := O.Sum(m))))
    case Ignore => (Redirected, s)
  }

  /** A key int() reads as a negative number names no row: the request
      redirects and the order is unchanged (`?add_item=-1` among them). */
  lemma NegativeKeyChangesNothing(key: string, s: O.OrderState, catalog: O.Catalog, restaurant: O.RestaurantId)
    requires forall i :: i in s.lines ==> i in catalog
    requires ParseKey(key).Some? && ParseKey(key).value < 0
    ensures Step(AddLine(key), s, catalog, restaurant) == (Redirected, s)
    ensures Step(RemoveLine(key), s, catalog, restaurant) == (Redirected, s)
  {
  }

  lemma MinusOneRedirects(s: O.OrderState, catalog: O.Catalog, restaurant: O.RestaurantId)
    requires forall i :: i in s.lines ==> i in catalog
    ensures Step(Dispatch(map["add_item" := "-1"]), s, catalog, restaurant) == (Redirected, s)
  {
    SignedKeyExamples();
    NegativeKeyChangesNothing("-1", s, catalog, restaurant);
  }

  /** A GET request changes at most one thing: the option, or the lines. */
  lemma OneMutation(a: Action, s: O.OrderState, catalog: O.Catalog, restaurant: O.RestaurantId)
    requires forall i :: i in s.lines ==> i in catalog
    ensures var t := Step(a, s, catalog, restaurant).1;
      t.option == s.option || (t.lines == s.lines && t.nextLine == s.nextLine && t.totalPrice == s.totalPrice)
    ensures var t := Step(a, s, catalog, restaurant).1;
      t.option != s.option <==> a.ChooseOption? && AcceptOption(s.option, a.option)
  {
  }

  /** An order all of whose lines name catalog items, as foreign keys ensure. */
  ghost predicate Consistent(order: O.Order, catalog: O.Catalog)
    reads order
  {
    order.Valid() && forall i :: i in order.lines ==> i in catalog
  }

  /** The `if request.GET:` branch of restaurant_page on the draft order. */
  method ApplyGet(order: O.Order, get: map<string, string>, catalog: O.Catalog) returns (outcome: Outcome)
    requires Consistent(order, catalog)
    modifies order
    ensures (outcome, order.State()) == Step(Dispatch(get), old(order.State()), catalog, order.restaurant)
    ensures order.status == old(order.status) && Consistent(order, catalog)
  {
    outcome := Redirected;
    match Dispatch(get) {
      case ChooseOption(v) =>
        if AcceptOption(order.option, v) {
          order.option := v;
        }
      case AddLine(key) =>
        match ParseKey(key) {
          case None =>
            outcome := ValueError;
          case Some(item) =>
            if item >= 0 {
              order.AddItem(item, catalog);
            }
        }
      case RemoveLine(key) =>
        match ParseKey(key) {
          case None =>
            outcome := ValueError;
          case Some(id) =>
            if id >= 0 {
              O.RemovedLinesSubset(order.lines, id, catalog);
              order.RemoveItem(id, catalog);
            }
        }
      case Ignore =>
    }
  }

  /** How restaurant_page answers. */
  datatype Response = NotFound | Page | Redirect(code: string) | ServerError

  /** The draft orders, one per customer and restaurant. */
  type Drafts = map<(O.CustomerId, O.RestaurantId), O.Order>

  ghost predicate DraftsValid(drafts: Drafts, catalog: O.Catalog)
    reads set k | k in drafts :: drafts[k]
  {
    forall k :: k in drafts ==>
      && drafts[k].customer == k.0 && drafts[k].restaurant == k.1 && drafts[k].status == "d"
      && Consistent(drafts[k], catalog)
  }

  /** The draft order the page would touch: the customer's draft for this restaurant. */
  function Touched(user: Option<O.CustomerId>, code: string, restaurants: map<string, R.Restaurant>, drafts: Drafts): set<object>
    reads set c | c in restaurants :: restaurants[c]
  {
    if user.Some? && code in restaurants && restaurants[code].hasDelivery && (user.value, restaurants[code].pk) in drafts
    then {drafts[(user.value, restaurants[code].pk)]}
    else {}
  }

  /** restaurant_page: an unknown code answers 404. An anonymous visitor, or
      a restaurant without delivery, gets the page with no order. Otherwise
      the customer's draft order for the restaurant is fetched or created;
      a GET request carrying parameters applies its one action to that
      order and redirects back (or fails on a malformed key), any other
      request shows the page. */
  method RestaurantPage(user: Option<O.CustomerId>, code: string, restaurants: map<string, R.Restaurant>,
                        drafts: Drafts, get: map<string, string>, catalog: O.Catalog)
    returns (response: Response, order: O.Order?, drafts': Drafts)
    requires DraftsValid(drafts, catalog)
    modifies Touched(user, code, restaurants, drafts)
    ensures code !in restaurants ==> response == NotFound && order == null && drafts' == drafts
    ensures code in restaurants && !(user.Some? && restaurants[code].hasDelivery) ==>
      response == Page && order == null && drafts' == drafts
    ensures code in restaurants && user.Some? && restaurants[code].hasDelivery ==>
      var key := (user.value, restaurants[code].pk);
      && order != null && key in drafts' && drafts'[key] == order
      && order.customer == user.value && order.restaurant == restaurants[code].pk && order.status == "d"
      && Consistent(order, catalog)
      && (key in drafts ==> order == drafts[key] && drafts' == drafts)
      && (key !in drafts ==> fresh(order) && drafts' == drafts[key := order])
      && var before := if key in drafts then old(drafts[key].State()) else O.OrderState("d", map[], 1, 0);
      && (get == map[] ==> response == Page && order.State() == before)
      && (get != map[] ==>
            var (outcome, after) := Step(Dispatch(get), before, catalog, order.restaurant);
            order.State() == after && response == (if outcome == Redirected then Redirect(code) else ServerError))
  {
    drafts' := drafts;
    order := null;
    if code !in restaurants {
      return NotFound, order, drafts';
    }
    var restaurant := restaurants[code];
    if user.Some? && restaurant.hasDelivery {
      var key := (user.value, restaurant.pk);
      if key in drafts {
        order := drafts[key];
      } else {
        order := new O.Order(user.value, restaurant.pk, "d");
        drafts' := drafts[key := order];
      }
      if get != map[] {
        var outcome := ApplyGet(order, get, catalog);
        response := if outcome == Redirected then Redirect(code) else ServerError;
      } else {
        response := Page;
      }
    } else {
      response := Page;
    }
  }
}
