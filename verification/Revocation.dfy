/** The revocation field of an index row: how it is written, how it is read back, and what OCSP says of it. */
module Revocation {
  import opened CStrings

  /** The ASN.1 library's verdicts on strings. */
  datatype Library = Library(isTime: string -> bool, isUtcTime: string -> bool, isGeneralizedTime: string -> bool,
                             isOid: string -> bool)

  /** The kinds of revocation a command can ask for. */
  datatype RevType = NoReason | CrlReason | Hold | KeyCompromise | CaCompromise

  const NOSTATUS := -1

  const REASONS: seq<string> := [
    "unspecified", "keyCompromise", "CACompromise", "affiliationChanged", "superseded", "cessationOfOperation",
    "certificateHold", "removeFromCRL", "holdInstruction", "keyTime", "CAkeyTime"
  ]

  const NUM_CRL_REASONS := 8

  // ----- writing -----

  /** The first of REASONS[from..end] that s names, letter case aside; `end` if none does. */
  function FirstReason(s: string, from: nat, end: nat): (i: nat)
    requires from <= end <= |REASONS|
    ensures from <= i <= end
    ensures i < end ==> CaseEq(s, REASONS[i])
    ensures forall k :: from <= k < i ==> !CaseEq(s, REASONS[k])
    decreases end - from
  {
    if from == end || CaseEq(s, REASONS[from]) then from else FirstReason(s, from + 1, end)
  }

  method FindReason(s: string, end: nat) returns (i: nat)
    requires end <= |REASONS|
    ensures i == FirstReason(s, 0, end)
  {
    i := 0;
    while i < end
      invariant i <= end && FirstReason(s, 0, end) == FirstReason(s, i, end)
    {
      if CaseEq(s, REASONS[i]) {
        return;
      }
      i := i + 1;
    }
  }

  function WithReason(now: string, reason: string): string {
    now + "," + reason
  }

  /** make_revocation_str, with the current time as a parameter. */
  function RevocationStr(lib: Library, now: string, t: RevType, arg: string): Option<string> {
    match t
    case NoReason => Some(now)
    case CrlReason =>
      var i := FirstReason(arg, 0, NUM_CRL_REASONS);
      if i == NUM_CRL_REASONS then None else Some(WithReason(now, REASONS[i]))
    case Hold => if lib.isOid(arg) then Some(WithReason(now, "holdInstruction") + "," + arg) else None
    case KeyCompromise => if lib.isGeneralizedTime(arg) then Some(WithReason(now, "keyTime") + "," + arg) else None
    case CaCompromise => if lib.isGeneralizedTime(arg) then Some(WithReason(now, "CAkeyTime") + "," + arg) else None
  }

  method MakeRevocationStr(lib: Library, now: string, t: RevType, arg: string) returns (r: Option<string>)
    ensures r == RevocationStr(lib, now, t, arg)
  {
    var reason: Option<string>, other: Option<string> := None, None;
    match t {
      case NoReason =>
      case CrlReason =>
        var i := FindReason(arg, NUM_CRL_REASONS);
        if i == NUM_CRL_REASONS {
          return None;
        }
        reason := Some(REASONS[i]);
      case Hold =>
        if !lib.isOid(arg) {
          return None;
        }
        reason, other := Some("holdInstruction"), Some(arg);
      case KeyCompromise | CaCompromise =>
        if !lib.isGeneralizedTime(arg) {
          return None;
        }
        reason, other := Some(if t.KeyCompromise? then "keyTime" else "CAkeyTime"), Some(arg);
    }
    var str := now;
    if reason.Some? {
      str := str + ",";
      str := str + reason.value;
    }
    if other.Some? {
      str := str + ",";
      str := str + other.value;
    }
    return Some(str);
  }

  // ----- reading -----

  /** What unpack_revinfo leaves in its out-parameters, of which all but the first start as NOSTATUS, NULL and
      NULL. revTime is the time object: None when it is made but left empty. */
  datatype RevInfo = RevInfo(ok: bool, revTime: Option<string>, reason: int, hold: Option<string>,
                             invTime: Option<string>)

  /** The field's parts: the time, then the reason up to the next comma, then all the rest. */
  function Fields(str: string): (string, Option<string>, Option<string>) {
    var i := IndexOf(str, ',');
    if i == |str| then (str, None, None)
    else
      var rest := str[i + 1..];
      var j := IndexOf(rest, ',');
      if j == |rest| then (str[..i], Some(rest), None) else (str[..i], Some(rest[..j]), Some(rest[j + 1..]))
  }

  /** Reason, hold instruction and invalidity date of reason number i with this argument; None on error. */
  function ReasonInfo(lib: Library, i: nat, arg: Option<string>): Option<(int, Option<string>, Option<string>)> {
    if i == 7 then Some((8, None, None))
    else if i == 8 then
      if arg.Some? && lib.isOid(arg.value) then Some((6, arg, None)) else None
    else if i == 9 || i == 10 then
      if arg.Some? && lib.isGeneralizedTime(arg.value) then Some((i - 8, None, arg)) else None
    else Some((i, None, None))
  }

  /** unpack_revinfo: a bad date leaves the time object empty. */
  function Unpack(lib: Library, str: string): RevInfo {
    var (time, reason, arg) := Fields(str);
    if !lib.isUtcTime(time) then RevInfo(false, None, NOSTATUS, None, None)
    else if reason.None? then RevInfo(true, Some(time), NOSTATUS, None, None)
    else
      var i := FirstReason(reason.value, 0, |REASONS|);
      if i == |REASONS| then RevInfo(false, Some(time), NOSTATUS, None, None)
      else
        var r := ReasonInfo(lib, i, arg);
        if r.None? then RevInfo(false, Some(time), NOSTATUS, None, None)
        else RevInfo(true, Some(time), r.value.0, r.value.1, r.value.2)
  }

  method UnpackRevInfo(lib: Library, str: string) returns (info: RevInfo)
    ensures info == Unpack(lib, str)
  {
    var p := IndexOf(str, ',');
    var rtime, reason, arg: Option<string> := str[..p], None, None;
    assert str[..|str|] == str;
    if p < |str| {
      var rest := str[p + 1..];
      p := IndexOf(rest, ',');
      reason := Some(rest[..p]);
      assert rest[..|rest|] == rest;
      if p < |rest| {
        arg := Some(rest[p + 1..]);
      }
    }
    info := RevInfo(false, None, NOSTATUS, None, None);
    if !lib.isUtcTime(rtime) {
      return;
    }
    info := info.(revTime := Some(rtime));
    var code, hold, compTime: Option<string> := NOSTATUS, None, None;
    if reason.Some? {
      var i := FindReason(reason.value, |REASONS|);
      if i == |REASONS| {
        return;
      }
      code := i;
      if code == 7 {
        code := 8;
      } else if code == 8 {
        if arg.None? || !lib.isOid(arg.value) {
          return;
        }
        code, hold := 6, arg;
      } else if code == 9 || code == 10 {
        if arg.None? || !lib.isGeneralizedTime(arg.value) {
          return;
        }
        code, compTime := if code == 9 then 1 else 2, arg;
      }
    }
    info := info.(ok := true, reason := code, hold := hold, invTime := compTime);
  }

  // ----- reading undoes writing -----

  /** The CRLReason codes of section 5.3.1 of RFC 5280, by name. */
  function RfcReasonCode(name: string): Option<int> {
    if CaseEq(name, "unspecified") then Some(0)
    else if CaseEq(name, "keyCompromise") then Some(1)
    else if CaseEq(name, "cACompromise") then Some(2)
    else if CaseEq(name, "affiliationChanged") then Some(3)
    else if CaseEq(name, "superseded") then Some(4)
    else if CaseEq(name, "cessationOfOperation") then Some(5)
    else if CaseEq(name, "certificateHold") then Some(6)
    else if CaseEq(name, "removeFromCRL") then Some(8)
    else None
  }

  /** The reason a request stands for. */
  function Requested(t: RevType, arg: string): Option<int> {
    match t
    case NoReason => Some(NOSTATUS)
    case CrlReason => RfcReasonCode(arg)
    case Hold => Some(6)
    case KeyCompromise => Some(1)
    case CaCompromise => Some(2)
  }

  /** What a request asks to be recorded. */
  function RequestedInfo(now: string, t: RevType, arg: string): RevInfo
    requires Requested(t, arg).Some?
  {
    RevInfo(true, Some(now), Requested(t, arg).value, if t.Hold? then Some(arg) else None,
            if t.KeyCompromise? || t.CaCompromise? then Some(arg) else None)
  }

  predicate Acceptable(lib: Library, t: RevType, arg: string) {
    match t
    case NoReason => true
    case CrlReason => RfcReasonCode(arg).Some?
    case Hold => lib.isOid(arg)
    case KeyCompromise | CaCompromise => lib.isGeneralizedTime(arg)
  }

  /** No two reason names differ only in letter case: their lengths or first letters differ. */
  lemma ReasonsDiffer(i: nat, j: nat)
    requires i < |REASONS| && j < |REASONS| && i != j
    ensures |REASONS[i]| != |REASONS[j]| || Lower(REASONS[i][0]) != Lower(REASONS[j][0])
    ensures !CaseEq(REASONS[i], REASONS[j])
  {
    assert REASONS[0] == "unspecified" && REASONS[1] == "keyCompromise" && REASONS[2] == "CACompromise"
        && REASONS[3] == "affiliationChanged" && REASONS[4] == "superseded" && REASONS[5] == "cessationOfOperation"
        && REASONS[6] == "certificateHold" && REASONS[7] == "removeFromCRL" && REASONS[8] == "holdInstruction"
        && REASONS[9] == "keyTime" && REASONS[10] == "CAkeyTime";
  }

  lemma FindsItself(i: nat)
    requires i < |REASONS|
    ensures FirstReason(REASONS[i], 0, |REASONS|) == i
  {
    var j := FirstReason(REASONS[i], 0, |REASONS|);
    assert CaseEq(REASONS[i], REASONS[i]);
    if j != i { ReasonsDiffer(i, j); }
  }

  /** A request is accepted exactly when its argument names what it must. */
  lemma AcceptedIff(lib: Library, now: string, t: RevType, arg: string)
    ensures RevocationStr(lib, now, t, arg).Some? <==> Acceptable(lib, t, arg)
  {
    ReasonIsRfc(arg);
  }

  /** The first eight names are RFC 5280's; removeFromCRL is number 7 here and code 8 there. */
  lemma ReasonIsRfc(arg: string)
    ensures var i := FirstReason(arg, 0, NUM_CRL_REASONS);
            RfcReasonCode(arg) == if i == NUM_CRL_REASONS then None else Some(if i == 7 then 8 else i)
  {
    assert CaseEq("CACompromise", "cACompromise");
    assert REASONS[0] == "unspecified" && REASONS[1] == "keyCompromise" && REASONS[2] == "CACompromise"
        && REASONS[3] == "affiliationChanged" && REASONS[4] == "superseded" && REASONS[5] == "cessationOfOperation"
        && REASONS[6] == "certificateHold" && REASONS[7] == "removeFromCRL";
  }

  lemma CommaSplit(a: string, b: string)
    requires ',' !in a
    ensures var s := a + "," + b; IndexOf(s, ',') == |a| && s[..|a|] == a && s[|a| + 1..] == b
  {
    IndexOfConcat(a, ',', b);
    assert a + "," + b == a + [','] + b;
  }

  lemma FieldsOfTwo(now: string, reason: string)
    requires ',' !in now && ',' !in reason
    ensures Fields(WithReason(now, reason)) == (now, Some(reason), None)
  {
    CommaSplit(now, reason);
    IndexOfConcat(reason, ',', "");
  }

  lemma FieldsOfThree(str: string, now: string, rest: string, reason: string, arg: string)
    requires ',' !in now && ',' !in reason && rest == reason + "," + arg && str == now + "," + rest
    ensures Fields(str) == (now, Some(reason), Some(arg))
  {
    CommaSplit(now, rest);
    CommaSplit(reason, arg);
  }

  lemma Appended(now: string, reason: string, arg: string)
    ensures WithReason(now, reason) + "," + arg == now + "," + (reason + "," + arg)
  {
    assert now + "," + reason + "," + arg == now + "," + (reason + "," + arg);
  }

  lemma NoCommaInReasons(i: nat)
    requires i < |REASONS|
    ensures ',' !in REASONS[i]
  {
  }

  /** Reading back a field with reason number i. */
  lemma UnpackFields(lib: Library, str: string, now: string, i: nat, arg: Option<string>)
    requires lib.isUtcTime(now) && i < |REASONS| && ReasonInfo(lib, i, arg).Some?
    requires Fields(str) == (now, Some(REASONS[i]), arg)
    ensures var (reason, hold, time) := ReasonInfo(lib, i, arg).value;
            Unpack(lib, str) == RevInfo(true, Some(now), reason, hold, time)
  {
    FindsItself(i);
  }

  lemma UnpackPlain(lib: Library, now: string)
    requires ',' !in now && lib.isUtcTime(now)
    ensures Unpack(lib, now) == RevInfo(true, Some(now), NOSTATUS, None, None)
  {
    IndexOfConcat(now, ',', "");
  }

  lemma UnpackReason(lib: Library, now: string, arg: string)
    requires ',' !in now && lib.isUtcTime(now) && RfcReasonCode(arg).Some?
    ensures var i := FirstReason(arg, 0, NUM_CRL_REASONS);
            && i < NUM_CRL_REASONS
            && Unpack(lib, WithReason(now, REASONS[i]))
               == RevInfo(true, Some(now), RfcReasonCode(arg).value, None, None)
  {
    ReasonIsRfc(arg);
    var i := FirstReason(arg, 0, NUM_CRL_REASONS);
    NoCommaInReasons(i);
    FieldsOfTwo(now, REASONS[i]);
    UnpackFields(lib, WithReason(now, REASONS[i]), now, i, None);
  }

  lemma UnpackArgument(lib: Library, now: string, i: nat, name: string, arg: string)
    requires ',' !in now && lib.isUtcTime(now) && i < |REASONS| && name == REASONS[i]
    requires ReasonInfo(lib, i, Some(arg)).Some?
    ensures var (reason, hold, time) := ReasonInfo(lib, i, Some(arg)).value;
            Unpack(lib, WithReason(now, name) + "," + arg) == RevInfo(true, Some(now), reason, hold, time)
  {
    NoCommaInReasons(i);
    Appended(now, name, arg);
    var str := WithReason(now, name) + "," + arg;
    FieldsOfThree(str, now, name + "," + arg, name, arg);
    UnpackFields(lib, str, now, i, Some(arg));
  }

  /** Whatever is accepted reads back as what was asked for, argument included, commas and all. */
  lemma UnpackUndoesMake(lib: Library, now: string, t: RevType, arg: string)
    requires ',' !in now && lib.isUtcTime(now) && Acceptable(lib, t, arg)
    ensures var str := RevocationStr(lib, now, t, arg);
            str.Some? && Requested(t, arg).Some? && Unpack(lib, str.value) == RequestedInfo(now, t, arg)
  {
    match t
    case NoReason => UnpackPlain(lib, now);
    case CrlReason => UnpackReason(lib, now, arg);
    case Hold => UnpackArgument(lib, now, 8, "holdInstruction", arg);
    case KeyCompromise => UnpackArgument(lib, now, 9, "keyTime", arg);
    case CaCompromise => UnpackArgument(lib, now, 10, "CAkeyTime", arg);
  }

  /** The text that is written: the time, the reason under its own name whatever letter case was asked for, and the
      argument as it was given. */
  lemma RevocationText(lib: Library, now: string, t: RevType, arg: string)
    requires Acceptable(lib, t, arg)
    ensures var str := RevocationStr(lib, now, t, arg);
            str.Some? &&
            match t
            case NoReason => str.value == now
            case CrlReason =>
              exists r :: CaseEq(arg, r) && str.value == now + "," + r
                          && r in {"unspecified", "keyCompromise", "CACompromise", "affiliationChanged", "superseded",
                                   "cessationOfOperation", "certificateHold", "removeFromCRL"}
            case Hold => str.value == now + "," + "holdInstruction" + "," + arg
            case KeyCompromise => str.value == now + "," + "keyTime" + "," + arg
            case CaCompromise => str.value == now + "," + "CAkeyTime" + "," + arg
  {
    AcceptedIff(lib, now, t, arg);
    if t.CrlReason? {
      var i := FirstReason(arg, 0, NUM_CRL_REASONS);
      assert CaseEq(arg, REASONS[i]);
    }
  }

  // ----- what any field reads as -----

  /** A field of one, two or three parts. */
  function FieldText(time: string, reason: Option<string>, arg: Option<string>): string {
    time + if reason.None? then "" else "," + reason.value + if arg.None? then "" else "," + arg.value
  }

  ghost predicate IsField(time: string, reason: Option<string>, arg: Option<string>) {
    ',' !in time && (reason.Some? ==> ',' !in reason.value) && (arg.Some? ==> reason.Some?)
  }

  lemma NoneBefore(s: string, i: nat)
    requires i <= |s| && forall k :: 0 <= k < i ==> s[k] != ','
    ensures ',' !in s[..i]
  {
  }

  lemma CutAt(s: string, i: nat)
    requires i < |s| && s[i] == ','
    ensures s == s[..i] + ("," + s[i + 1..])
  {
  }

  lemma CutAtComma(s: string, i: nat)
    requires i == IndexOf(s, ',')
    ensures ',' !in s[..i] && if i == |s| then s[..i] == s else s == s[..i] + ("," + s[i + 1..])
  {
    NoneBefore(s, i);
    if i < |s| { CutAt(s, i); }
  }

  lemma TextOfOne(time: string)
    ensures FieldText(time, None, None) == time
  {
  }

  lemma TextOfTwo(time: string, reason: string)
    ensures FieldText(time, Some(reason), None) == time + ("," + reason)
  {
  }

  lemma TextOfThree(time: string, reason: string, arg: string)
    ensures FieldText(time, Some(reason), Some(arg)) == time + ("," + (reason + ("," + arg)))
  {
  }

  lemma RestIsText(str: string, time: string, rest: string, j: nat)
    requires str == time + ("," + rest) && ',' !in time && j == IndexOf(rest, ',')
    ensures j == |rest| ==> IsField(time, Some(rest), None) && str == FieldText(time, Some(rest), None)
    ensures j < |rest| ==> IsField(time, Some(rest[..j]), Some(rest[j + 1..]))
                           && str == FieldText(time, Some(rest[..j]), Some(rest[j + 1..]))
  {
    CutAtComma(rest, j);
    if j == |rest| { TextOfTwo(time, rest); } else { TextOfThree(time, rest[..j], rest[j + 1..]); }
  }

  lemma FieldsFound(str: string, i: nat, rest: string, j: nat)
    requires i == IndexOf(str, ',') && i < |str| && rest == str[i + 1..] && j == IndexOf(rest, ',')
    ensures Fields(str) == if j == |rest| then (str[..i], Some(rest), None)
                           else (str[..i], Some(rest[..j]), Some(rest[j + 1..]))
  {
  }

  /** The parts of a field as the parser cuts it. */
  ghost predicate IsCut(str: string, parts: (string, Option<string>, Option<string>)) {
    IsField(parts.0, parts.1, parts.2) && str == FieldText(parts.0, parts.1, parts.2)
  }

  /** Every field is the text of its parts. */
  lemma FieldsAreText(str: string)
    ensures IsCut(str, Fields(str))
  {
    var i := IndexOf(str, ',');
    CutAtComma(str, i);
    if i == |str| {
      TextOfOne(str);
      assert IsCut(str, (str, None, None));
    } else {
      var rest := str[i + 1..];
      var j := IndexOf(rest, ',');
      FieldsFound(str, i, rest, j);
      RestIsText(str, str[..i], rest, j);
    }
  }

  lemma TextHasFields(time: string, reason: Option<string>, arg: Option<string>)
    requires IsField(time, reason, arg)
    ensures Fields(FieldText(time, reason, arg)) == (time, reason, arg)
  {
    if reason.None? {
      IndexOfConcat(time, ',', "");
      assert time + "" == time && time[..|time|] == time;
    } else if arg.None? {
      assert FieldText(time, reason, arg) == WithReason(time, reason.value);
      FieldsOfTwo(time, reason.value);
    } else {
      var rest := reason.value + "," + arg.value;
      assert FieldText(time, reason, arg) == time + "," + rest;
      FieldsOfThree(time + "," + rest, time, rest, reason.value, arg.value);
    }
  }

  /** Code, hold instruction and invalidity date of a reason by its name, letter case aside. */
  function Meaning(lib: Library, reason: string, arg: Option<string>): Option<(int, Option<string>, Option<string>)> {
    if RfcReasonCode(reason).Some? then Some((RfcReasonCode(reason).value, None, None))
    else if CaseEq(reason, "holdInstruction") then
      if arg.Some? && lib.isOid(arg.value) then Some((6, arg, None)) else None
    else if CaseEq(reason, "keyTime") then
      if arg.Some? && lib.isGeneralizedTime(arg.value) then Some((1, None, arg)) else None
    else if CaseEq(reason, "CAkeyTime") then
      if arg.Some? && lib.isGeneralizedTime(arg.value) then Some((2, None, arg)) else None
    else None
  }

  lemma ReasonNumber(reason: string)
    ensures var i := FirstReason(reason, 0, |REASONS|);
            && (RfcReasonCode(reason).Some? <==> i < 8)
            && (i < 8 ==> RfcReasonCode(reason) == Some(if i == 7 then 8 else i))
            && (i == 8 ==> CaseEq(reason, "holdInstruction")) && (i == 9 ==> CaseEq(reason, "keyTime"))
            && (i == 10 ==> CaseEq(reason, "CAkeyTime"))
            && (i == |REASONS| ==> !CaseEq(reason, "holdInstruction") && !CaseEq(reason, "keyTime")
                                   && !CaseEq(reason, "CAkeyTime"))
            && (i == 9 || i == 10 ==> !CaseEq(reason, "holdInstruction"))
            && (i == 10 ==> !CaseEq(reason, "keyTime"))
  {
    ReasonIsRfc(reason);
    var i, j := FirstReason(reason, 0, |REASONS|), FirstReason(reason, 0, NUM_CRL_REASONS);
    assert REASONS[8] == "holdInstruction" && REASONS[9] == "keyTime" && REASONS[10] == "CAkeyTime";
    assert j < NUM_CRL_REASONS ==> i == j;
  }

  lemma MeaningIs(lib: Library, reason: string, arg: Option<string>)
    ensures var i := FirstReason(reason, 0, |REASONS|);
            Meaning(lib, reason, arg) == if i == |REASONS| then None else ReasonInfo(lib, i, arg)
  {
    ReasonNumber(reason);
  }

  /** What the parser makes of any field: nothing at all of a bad time, the time alone of a reason it does not know or
      an argument it cannot use, and otherwise everything. */
  lemma UnpackIs(lib: Library, time: string, reason: Option<string>, arg: Option<string>)
    requires IsField(time, reason, arg)
    ensures Unpack(lib, FieldText(time, reason, arg))
            == if !lib.isUtcTime(time) then RevInfo(false, None, -1, None, None)
               else if reason.None? then RevInfo(true, Some(time), -1, None, None)
               else
                 var r := Meaning(lib, reason.value, arg);
                 if r.None? then RevInfo(false, Some(time), -1, None, None)
                 else RevInfo(true, Some(time), r.value.0, r.value.1, r.value.2)
  {
    TextHasFields(time, reason, arg);
    if reason.Some? { MeaningIs(lib, reason.value, arg); }
  }
}
