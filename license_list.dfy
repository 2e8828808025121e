/**
  The SPDX license list (src/license_list.rs) as far as validation uses it: the ids
  of the listed licenses and exceptions, the two membership queries, and the check
  that a license expression is one the toolkit accepts.
 */
module LicenseList {

  /** A listed license; only its id takes part in validation. */
  datatype License = License(licenseId: string)

  /** A listed license exception; only its id takes part in validation. */
  datatype Exception = Exception(licenseExceptionId: string)

  /** Whether some element of `xs` satisfies `p`, scanning from the front. */
  function Any<T>(xs: seq<T>, p: T -> bool): (r: bool)
    ensures r <==> exists i | 0 <= i < |xs| :: p(xs[i])
  {
    if xs == [] then false else p(xs[0]) || Any(xs[1..], p)
  }

  /** `s` with every occurrence of `c` deleted, the other characters kept in order. */
  function RemoveAll(s: string, c: char): (r: string)
    ensures c !in r
    ensures forall x | x != c :: x in r <==> x in s
    ensures |r| <= |s|
    ensures c !in s ==> r == s
    ensures |s| == 1 ==> r == if s[0] == c then [] else s
  {
    if s == [] then []
    else
      assert s == [s[0]] + s[1..];
      (if s[0] == c then [] else [s[0]]) + RemoveAll(s[1..], c)
  }

  /** NOASSERTION, NONE, or a LicenseRef- or DocumentRef- reference. */
  function SpecialForm(expression: string): (r: bool)
    ensures r <==> || expression in ["NOASSERTION", "NONE"]
                   || (|expression| >= 11 && expression[..11] == "LicenseRef-")
                   || (|expression| >= 12 && expression[..12] == "DocumentRef-")
  {
    || expression == "NOASSERTION"
    || expression == "NONE"
    || "LicenseRef-" <= expression
    || "DocumentRef-" <= expression
  }

  /** An expression whose first character starts none of the four special forms is not one. */
  lemma NotSpecialForm(expression: string)
    requires |expression| > 0 && expression[0] !in "NLD"
    ensures !SpecialForm(expression)
  {
    assert "NOASSERTION"[0] == 'N' && "NONE"[0] == 'N';
    assert "LicenseRef-"[0] == 'L' && "DocumentRef-"[0] == 'D';
  }

  datatype LicenseList = LicenseList(licenses: seq<License>, exceptions: seq<Exception>) {

    /** Whether some listed license has the id `spdxId`. */
    function IncludesLicense(spdxId: string): (r: bool)
      ensures r <==> exists i | 0 <= i < |licenses| :: licenses[i].licenseId == spdxId
    {
      Any(licenses, (license: License) => license.licenseId == spdxId)
    }

    /** Whether some listed exception has the id `exceptionId`. */
    function IncludesException(exceptionId: string): (r: bool)
      ensures r <==> exists i | 0 <= i < |exceptions| :: exceptions[i].licenseExceptionId == exceptionId
    {
      Any(exceptions, (exception: Exception) => exception.licenseExceptionId == exceptionId)
    }

    /**
      Whether `expression` is a special form, a listed license once every '+' is
      deleted, or a listed exception.
     */
    function IsValidLicense(expression: string): (r: bool)
      ensures r <==> || SpecialForm(expression)
                     || (exists i | 0 <= i < |licenses| :: licenses[i].licenseId == RemoveAll(expression, '+'))
                     || (exists i | 0 <= i < |exceptions| :: exceptions[i].licenseExceptionId == expression)
    {
      || SpecialForm(expression)
      || IncludesLicense(RemoveAll(expression, '+'))
      || IncludesException(expression)
    }
  }

  /** Deleting a character commutes with concatenation. */
  lemma {:induction false} RemoveAllConcat(a: string, b: string, c: char)
    ensures RemoveAll(a + b, c) == RemoveAll(a, c) + RemoveAll(b, c)
  {
    if a == [] {
      assert a + b == b;
    } else {
      assert (a + b)[0] == a[0] && (a + b)[1..] == a[1..] + b;
      RemoveAllConcat(a[1..], b, c);
    }
  }

  /** Deleting a character keeps every other character exactly as many times as it occurs. */
  lemma {:induction false} RemoveAllCounts(s: string, c: char)
    ensures multiset(RemoveAll(s, c)) == multiset(s)[c := 0]
  {
    if s != [] {
      assert s == [s[0]] + s[1..];
      RemoveAllCounts(s[1..], c);
    }
  }

  /** Deleting a character twice is deleting it once. */
  lemma RemoveAllIdempotent(s: string, c: char)
    ensures RemoveAll(RemoveAll(s, c), c) == RemoveAll(s, c)
  {
  }

  /** NOASSERTION, NONE and every LicenseRef- and DocumentRef- reference are valid against any list. */
  lemma SpecialFormsAreValid(list: LicenseList, suffix: string)
    ensures list.IsValidLicense("NOASSERTION") && list.IsValidLicense("NONE")
    ensures list.IsValidLicense("LicenseRef-" + suffix)
    ensures list.IsValidLicense("DocumentRef-" + suffix)
  {
  }

  /** Deleting '+' from an expression ignores a '+' inserted anywhere in it. */
  lemma {:induction false} InsertedPlusDeleted(before: string, after: string)
    ensures RemoveAll(before + "+" + after, '+') == RemoveAll(before + after, '+')
  {
    var plus := "+";
    var withPlus := before + plus;
    assert before + "+" + after == withPlus + after;
    RemoveAllConcat(withPlus, after, '+');
    RemoveAllConcat(before, plus, '+');
    RemoveAllConcat(before, after, '+');
    assert RemoveAll(plus, '+') == [] by {
      assert plus[0] == '+' && plus[1..] == [];
    }
    assert RemoveAll(withPlus, '+') == RemoveAll(before, '+');
  }

  /** A '+' anywhere in an expression does not stop it from matching a listed license. */
  lemma PlusAnywhereIsValid(list: LicenseList, before: string, after: string)
    requires list.IncludesLicense(RemoveAll(before + after, '+'))
    ensures list.IsValidLicense(before + "+" + after)
  {
    InsertedPlusDeleted(before, after);
  }

  /** Deleting '+' from an id without '+' followed by '+' gives back the id. */
  lemma RemoveTrailingPlus(id: string)
    requires '+' !in id
    ensures RemoveAll(id + "+", '+') == id
  {
    RemoveAllConcat(id, "+", '+');
    assert RemoveAll("+", '+') == [];
  }

  /** "GPL-2.0+" is valid when "GPL-2.0" is listed. */
  lemma OrLaterSuffixIsValid(list: LicenseList)
    requires list.IncludesLicense("GPL-2.0")
    ensures list.IsValidLicense("GPL-2.0+")
  {
    var id := "GPL-2.0";
    assert '+' !in id by {
      assert forall i | 0 <= i < |id| :: id[i] != '+';
    }
    RemoveTrailingPlus(id);
    assert id + "+" == "GPL-2.0+";
  }

  /**
    Exceptions are matched without deleting '+': with no licenses listed, an
    exception id is valid but the same id followed by '+' is not.
   */
  lemma ExceptionsMatchVerbatim(id: string)
    requires !SpecialForm(id + "+")
    ensures LicenseList([], [Exception(id)]).IsValidLicense(id)
    ensures !LicenseList([], [Exception(id)]).IsValidLicense(id + "+")
  {
    var list := LicenseList([], [Exception(id)]);
    assert list.exceptions[0].licenseExceptionId == id;
    assert |id + "+"| != |id|;
  }

  /** For instance, "Classpath-exception-2.0+" is not valid against a list holding only that exception. */
  lemma ClasspathExceptionWithPlus()
    ensures !LicenseList([], [Exception("Classpath-exception-2.0")]).IsValidLicense("Classpath-exception-2.0+")
  {
    var id := "Classpath-exception-2.0";
    assert id + "+" == "Classpath-exception-2.0+";
    NotSpecialForm(id + "+");
    ExceptionsMatchVerbatim(id);
  }

  /**
    A listed id ending in '+' is matched only through its form without '+': a list
    holding just such an id does not accept that id.
   */
  lemma ListedIdWithPlusNotMatched(id: string)
    requires '+' !in id && !SpecialForm(id + "+")
    ensures LicenseList([License(id + "+")], []).IncludesLicense(id + "+")
    ensures !LicenseList([License(id + "+")], []).IsValidLicense(id + "+")
  {
    var list := LicenseList([License(id + "+")], []);
    RemoveTrailingPlus(id);
    assert list.licenses[0].licenseId == id + "+";
    assert |id + "+"| != |id|;
  }

  /** With no licenses and no exceptions listed, only the four special forms are valid. */
  lemma EmptyListAcceptsOnlySpecialForms(expression: string)
    ensures LicenseList([], []).IsValidLicense(expression) <==> SpecialForm(expression)
  {
  }

  /** Listing more licenses or exceptions never makes a valid expression invalid. */
  lemma ValidityIsMonotonic(list: LicenseList, moreLicenses: seq<License>, moreExceptions: seq<Exception>,
                            expression: string)
    requires list.IsValidLicense(expression)
    ensures LicenseList(list.licenses + moreLicenses, list.exceptions + moreExceptions).IsValidLicense(expression)
  {
    var bigger := LicenseList(list.licenses + moreLicenses, list.exceptions + moreExceptions);
    var stripped := RemoveAll(expression, '+');
    if list.IncludesLicense(stripped) {
      var i :| 0 <= i < |list.licenses| && list.licenses[i].licenseId == stripped;
      assert bigger.licenses[i] == list.licenses[i];
    }
    if list.IncludesException(expression) {
      var i :| 0 <= i < |list.exceptions| && list.exceptions[i].licenseExceptionId == expression;
      assert bigger.exceptions[i] == list.exceptions[i];
    }
  }
}
