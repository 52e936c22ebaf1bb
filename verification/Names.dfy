/** Namespaced names and their printed form (pkg/util/names.go). */
module Names {
  const DEFAULT_NAMESPACE := "kube-system"

  datatype NamespacedName = NamespacedName(namespace: string, name: string)

  function NamespacedNameToString(ns: NamespacedName): string {
    if |ns.namespace| > 0 then ns.namespace + "/" + ns.name else ns.name
  }

  /** The position of the first slash, or the length when there is none. */
  function FirstSlash(s: string): (i: nat)
    ensures i <= |s|
    ensures '/' !in s[..i]
    ensures i < |s| ==> s[i] == '/'
  {
    if s == "" || s[0] == '/' then 0 else FirstSlash(s[1..]) + 1
  }

  /** Splits at the first slash only, so the name may itself contain slashes. */
  function StringToNamespacedName(s: string): NamespacedName {
    var i := FirstSlash(s);
    if i < |s| then NamespacedName(s[..i], s[i + 1..]) else NamespacedName(DEFAULT_NAMESPACE, s)
  }

  lemma {:induction false} FirstSlashUnique(s: string, i: nat)
    requires i <= |s| && '/' !in s[..i] && (i < |s| ==> s[i] == '/')
    ensures FirstSlash(s) == i
  {
    if i > 0 {
      assert s[..i][1..] == s[1..][..i - 1];
      FirstSlashUnique(s[1..], i - 1);
    }
  }

  lemma ParseOfJoined(namespace: string, name: string)
    requires '/' !in namespace
    ensures StringToNamespacedName(namespace + "/" + name) == NamespacedName(namespace, name)
  {
    var s := namespace + "/" + name;
    assert s[..|namespace|] == namespace;
    FirstSlashUnique(s, |namespace|);
    assert s[|namespace| + 1..] == name;
  }

  /** Whatever is parsed, joining the two halves with a slash gives the text back, if it had a slash at all. */
  lemma JoinOfParsed(s: string)
    requires '/' in s
    ensures var n := StringToNamespacedName(s);
            '/' !in n.namespace && s == n.namespace + "/" + n.name
  {
    assert s[..|s|] == s;
  }

  /** Parsing undoes printing for exactly the names with a nonempty namespace that has no slash. */
  lemma ParseUndoesPrint(n: NamespacedName)
    ensures StringToNamespacedName(NamespacedNameToString(n)) == n
       <==> n.namespace != "" && '/' !in n.namespace
  {
    var s := NamespacedNameToString(n);
    if n.namespace != "" && '/' !in n.namespace {
      ParseOfJoined(n.namespace, n.name);
    } else if n.namespace == "" {
      if '/' in s {
        JoinOfParsed(s);
        var p := StringToNamespacedName(s);
        assert |s| == |p.namespace| + 1 + |p.name|;
      }
    } else {
      assert '/' in s;
      JoinOfParsed(s);
    }
  }

  /** Printing a parsed text gives that text back exactly when it has a slash that is not its first character. */
  lemma PrintUndoesParse(s: string)
    ensures NamespacedNameToString(StringToNamespacedName(s)) == s <==> '/' in s && s[0] != '/'
  {
    var n := StringToNamespacedName(s);
    if '/' in s {
      JoinOfParsed(s);
      assert s[0] == '/' <==> n.namespace == "" by {
        if n.namespace != "" { assert s[0] == n.namespace[0]; }
      }
      if n.namespace == "" { assert |n.name| < |s|; }
    } else {
      assert |NamespacedNameToString(n)| > |s| by {
        assert FirstSlash(s) == |s|;
      }
    }
  }

  /** One round through the printer is stable for exactly the texts that do not start with a slash. */
  lemma ReparseIsStable(s: string)
    ensures StringToNamespacedName(NamespacedNameToString(StringToNamespacedName(s))) == StringToNamespacedName(s)
       <==> !(s != "" && s[0] == '/')
  {
    var n := StringToNamespacedName(s);
    ParseUndoesPrint(n);
    if '/' in s {
      JoinOfParsed(s);
      assert s[0] == '/' <==> n.namespace == "" by {
        if n.namespace != "" { assert s[0] == n.namespace[0]; }
      }
    }
  }

  /** A text without a slash is a name in the default namespace. */
  lemma NoSlashIsDefault(s: string)
    requires '/' !in s
    ensures StringToNamespacedName(s) == NamespacedName("kube-system", s)
  {
    FirstSlashUnique(s, |s|);
  }

  /** Names with a nonempty, slash-free namespace never share a printed form. */
  lemma PrintIsInjective(a: NamespacedName, b: NamespacedName)
    requires a.namespace != "" && '/' !in a.namespace
    requires b.namespace != "" && '/' !in b.namespace
    ensures NamespacedNameToString(a) == NamespacedNameToString(b) <==> a == b
  {
    ParseUndoesPrint(a);
    ParseUndoesPrint(b);
  }
}
