/**
 The attribute list an element callback receives (exml.Attrs, a slice of
 xml.Attr) and its two lookups, Get and GetString. Lookups compare the local
 part of the attribute name only; the namespace is ignored.
 */
module Attributes {

  /** xml.Name: a namespace and a local name. */
  datatype Name = Name(space: string, local: string)

  /** xml.Attr */
  datatype Attr = Attr(name: Name, value: string)

  type Attrs = seq<Attr>

  /** k is the first position whose local name is `name`. */
  predicate IsFirstMatch(a: Attrs, name: string, k: int) {
    && 0 <= k < |a|
    && a[k].name.local == name
    && forall j :: 0 <= j < k ==> a[j].name.local != name
  }

  predicate Has(a: Attrs, name: string) {
    exists k :: 0 <= k < |a| && a[k].name.local == name
  }

  /**
   Attrs.Get: the value of the first attribute whose local name is `name`,
   with true; the empty string with false when there is none.
   */
  function Get(a: Attrs, name: string): (r: (string, bool))
    ensures r.1 <==> Has(a, name)
    ensures r.1 ==> exists k :: IsFirstMatch(a, name, k) && r.0 == a[k].value
    ensures !r.1 ==> r.0 == ""
  {
    if a == [] then ("", false)
    else if a[0].name.local == name then
      assert IsFirstMatch(a, name, 0);
      (a[0].value, true)
    else
      var r := Get(a[1..], name);
      if r.1 then
        var k :| IsFirstMatch(a[1..], name, k) && r.0 == a[1..][k].value;
        assert IsFirstMatch(a, name, k + 1);
        r
      else
        r
  }

  /**
   Attrs.GetString: the value of the first attribute whose local name is
   `name`, or `fallback` when no attribute has that name.
   */
  function GetString(a: Attrs, name: string, fallback: string): (r: string)
    ensures !Has(a, name) ==> r == fallback
    ensures forall k :: IsFirstMatch(a, name, k) ==> r == a[k].value
  {
    var (value, ok) := Get(a, name);
    FirstMatchUnique(a, name);
    if !ok then fallback else value
  }

  /** There is at most one first match. */
  lemma FirstMatchUnique(a: Attrs, name: string)
    ensures forall k, k' :: IsFirstMatch(a, name, k) && IsFirstMatch(a, name, k') ==> k == k'
  {
  }

  /** A later attribute with the same name never shadows an earlier one. */
  lemma {:induction false} GetAppend(a: Attrs, b: Attrs, name: string)
    ensures Get(a + b, name) == if Has(a, name) then Get(a, name) else Get(b, name)
  {
    if a == [] {
      assert a + b == b;
    } else {
      assert (a + b)[0] == a[0];
      if a[0].name.local != name {
        assert (a + b)[1..] == a[1..] + b;
        GetAppend(a[1..], b, name);
        assert Has(a, name) <==> Has(a[1..], name) by {
          if Has(a, name) {
            var k :| 0 <= k < |a| && a[k].name.local == name;
            assert a[1..][k - 1] == a[k];
          }
          if Has(a[1..], name) {
            var k :| 0 <= k < |a[1..]| && a[1..][k].name.local == name;
            assert a[k + 1] == a[1..][k];
          }
        }
      }
    }
  }
}
