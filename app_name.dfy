/** The name under which `MainActivity` shares its own APK (the
    `menu_share_self` item): the application label with every space, slash
    and hyphen replaced by an underscore, then `.apk`. */
module AppName {

  /** The characters of the class `[ /-]`. */
  predicate IsReplaced(c: char) {
    c == ' ' || c == '/' || c == '-'
  }

  /** `label.replace("[ /-]".toRegex(), "_")`: one output character per input
      character; a space, `/` or `-` becomes `_` and every other character
      stays where it was. */
  function SanitizedAppName(name: string): (r: string)
    ensures |r| == |name|
    ensures forall i :: 0 <= i < |name| ==> r[i] == (if IsReplaced(name[i]) then '_' else name[i])
  {
    if name == [] then []
    else [if IsReplaced(name[0]) then '_' else name[0]] + SanitizedAppName(name[1..])
  }

  /** No space, `/` or `-` is left, and sanitising again changes nothing. */
  lemma SanitizedIsClean(name: string)
    ensures forall i :: 0 <= i < |name| ==> !IsReplaced(SanitizedAppName(name)[i])
    ensures SanitizedAppName(SanitizedAppName(name)) == SanitizedAppName(name)
  {
  }

  /** A name without those characters is kept as it is. */
  lemma CleanLabelUnchanged(name: string)
    requires forall i :: 0 <= i < |name| ==> !IsReplaced(name[i])
    ensures SanitizedAppName(name) == name
  {
  }

  /** `"$appName.apk"`: the sanitised name followed by `.apk`. */
  function ApkFileName(name: string): (r: string)
    ensures |r| == |name| + 4 && r[|name|..] == ".apk"
    ensures forall i :: 0 <= i < |name| ==>
              r[i] == (if IsReplaced(name[i]) then '_' else name[i])
  {
    SanitizedAppName(name) + ".apk"
  }
}
