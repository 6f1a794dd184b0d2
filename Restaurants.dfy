/**
 * The restaurant record, whose active flag is toggled in place, and the
 * per-restaurant configuration entry, whose key is upper-cased on save.
 */
module Restaurants {

  type RestaurantId = nat

  class Restaurant {
    const pk: RestaurantId
    var code: string
    var workingDays: string
    var workingHours: string
    var hasDelivery: bool
    var gmt: int
    var isActive: bool

    /** A new restaurant: inactive, as the field default says. */
    constructor (pk: RestaurantId, code: string, workingDays: string, workingHours: string, hasDelivery: bool, gmt: int)
      ensures this.pk == pk && this.code == code && this.workingDays == workingDays
      ensures this.workingHours == workingHours && this.hasDelivery == hasDelivery && this.gmt == gmt
      ensures !isActive
    {
      this.pk := pk;
      this.code := code;
      this.workingDays := workingDays;
      this.workingHours := workingHours;
      this.hasDelivery := hasDelivery;
      this.gmt := gmt;
      isActive := false;
    }

    /** Restaurant.toogle_state: the active flag is negated and nothing else changes. */
    method ToggleState()
      modifies this`isActive
      ensures isActive == !old(isActive)
    {
      isActive := !isActive;
    }
  }

  predicate IsLower(c: char) { 'a' <= c <= 'z' }

  /** No ASCII lower-case letter occurs in s. */
  predicate NoLower(s: string) { forall i :: 0 <= i < |s| ==> !IsLower(s[i]) }

  function UpperChar(c: char): (u: char)
    ensures !IsLower(u)
    ensures IsLower(c) ==> u as int == c as int - 32
    ensures !IsLower(c) ==> u == c
  {
    if IsLower(c) then (c as int - 32) as char else c
  }

  /** str.upper on ASCII text: each lower-case letter becomes its capital,
      every other character is kept, and the length does not change. */
  function Upper(s: string): (r: string)
    ensures |r| == |s| && NoLower(r)
    ensures forall i :: 0 <= i < |s| && !IsLower(s[i]) ==> r[i] == s[i]
    ensures forall i :: 0 <= i < |s| && IsLower(s[i]) ==> r[i] as int == s[i] as int - 32
  {
    seq(|s|, i requires 0 <= i < |s| => UpperChar(s[i]))
  }

  /** Upper-casing twice is upper-casing once. */
  lemma UpperIdempotent(s: string)
    ensures Upper(Upper(s)) == Upper(s)
  {
  }

  /** A key is left as it is exactly when it holds no lower-case letter. */
  lemma UpperFixed(s: string)
    ensures Upper(s) == s <==> NoLower(s)
  {
    if Upper(s) == s {
      assert NoLower(Upper(s));
    }
    if NoLower(s) {
      assert forall i :: 0 <= i < |s| ==> Upper(s)[i] == s[i];
    }
  }

  /** Two keys upper-case alike exactly when they agree letter by letter up to case. */
  lemma UpperEqualIgnoringCase(s: string, t: string)
    ensures Upper(s) == Upper(t) <==>
      |s| == |t| && forall i :: 0 <= i < |s| ==> UpperChar(s[i]) == UpperChar(t[i])
  {
    if |s| == |t| && forall i :: 0 <= i < |s| ==> UpperChar(s[i]) == UpperChar(t[i]) {
      assert forall i :: 0 <= i < |s| ==> Upper(s)[i] == Upper(t)[i];
    }
    if Upper(s) == Upper(t) {
      assert forall i :: 0 <= i < |s| ==> UpperChar(s[i]) == Upper(s)[i] == Upper(t)[i] == UpperChar(t[i]);
    }
  }

  /** One of the unit test's keys. */
  lemma UpperOfTestKey()
    ensures Upper("restaurant_name") == "RESTAURANT_NAME"
  {
  }

  /** A configuration entry of a restaurant. */
  class SystemConfig {
    var key: string
    var value: string
    const restaurant: RestaurantId

    constructor (key: string, value: string, restaurant: RestaurantId)
      ensures this.key == key && this.value == value && this.restaurant == restaurant
    {
      this.key := key;
      this.value := value;
      this.restaurant := restaurant;
    }

    /** SystemConfig.save: the key is upper-cased before the row is written. */
    method Save()
      modifies this`key
      ensures key == Upper(old(key)) && NoLower(key)
    {
      key := Upper(key);
    }
  }
}
