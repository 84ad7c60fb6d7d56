/**
 * The user settings: PropertiesService's user store, read and written by
 * setDefaults, resetDebug, turnOnDebug, turnOffDebug and changeDebugEmail.
 */
module Settings {
  import opened Wrappers
  import opened Dialogs
  import opened EmailSyntax

  const DebugKey := "g_debug"
  const DebugEmailKey := "g_debugEmail"
  /** g_debug_val: debug mode is off unless turned on. */
  const DebugDefault := "false"
  /** g_debugEmail_val of gradeReporter.js. */
  const ConstantDebugEmail := "jose.flores.152@gmail.com"

  /**
   * The two revisions of the script. gradeReporter.js defaults the debug
   * email to a constant and prints comments as they are; tmp.js defaults it
   * to the active user's address and escapes comments.
   */
  datatype Revision = GradeReporterJs | TmpJs

  /** The address setDefaults stores when the debug email is absent. */
  function DefaultDebugEmail(rev: Revision, activeUser: string): (e: string)
    ensures rev == TmpJs ==> e == activeUser
    ensures rev == GradeReporterJs ==> e == ConstantDebugEmail
  {
    match rev
    case GradeReporterJs => ConstantDebugEmail
    case TmpJs => activeUser
  }

  /** The store after setDefaults: only absent keys are written. */
  function WithDefaults(m: map<string, string>, email: string): (r: map<string, string>)
    ensures r.Keys == m.Keys + {DebugEmailKey, DebugKey}
    ensures forall k :: k in m ==> r[k] == m[k]
    ensures DebugEmailKey !in m ==> r[DebugEmailKey] == email
    ensures DebugKey !in m ==> r[DebugKey] == DebugDefault
  {
    var withEmail := if DebugEmailKey in m then m else m[DebugEmailKey := email];
    if DebugKey in withEmail then withEmail else withEmail[DebugKey := DebugDefault]
  }

  /** A second setDefaults changes nothing, whatever address it is given. */
  lemma WithDefaultsIdempotent(m: map<string, string>, email: string, email': string)
    ensures WithDefaults(WithDefaults(m, email), email') == WithDefaults(m, email)
  {
  }

  /** The store after resetDebug: both keys deleted, then setDefaults. */
  function AfterReset(m: map<string, string>, email: string): (r: map<string, string>)
    ensures r.Keys == m.Keys + {DebugEmailKey, DebugKey}
    ensures r[DebugKey] == DebugDefault && r[DebugEmailKey] == email
    ensures forall k :: k in m && k != DebugKey && k != DebugEmailKey ==> r[k] == m[k]
  {
    WithDefaults(m - {DebugEmailKey, DebugKey}, email)
  }

  /**
   * resetDebug depends on who the active user is only in tmp.js: in
   * gradeReporter.js it always restores the constant address.
   */
  lemma ResetDependsOnUser(rev: Revision, m: map<string, string>, u: string, u': string)
    ensures AfterReset(m, DefaultDebugEmail(rev, u)) == AfterReset(m, DefaultDebugEmail(rev, u'))
            <==> rev == GradeReporterJs || u == u'
  {
  }

  /** resetDebug forgets whatever the two settings held before. */
  lemma ResetForgetsSettings(m: map<string, string>, m': map<string, string>, email: string)
    requires m - {DebugEmailKey, DebugKey} == m' - {DebugEmailKey, DebugKey}
    ensures AfterReset(m, email) == AfterReset(m', email)
  {
  }

  /** True when the answer to the debug email prompt is accepted. */
  predicate AcceptsEmail(reply: Reply)
  {
    reply.button == Ok && ValidateEmail(reply.text)
  }

  /** The store after changeDebugEmail answered with reply. */
  function AfterEmailChange(m: map<string, string>, reply: Reply): (r: map<string, string>)
    ensures AcceptsEmail(reply) ==> r.Keys == m.Keys + {DebugEmailKey} && r[DebugEmailKey] == reply.text
    ensures forall k :: k in m && k != DebugEmailKey ==> k in r && r[k] == m[k]
    ensures !AcceptsEmail(reply) ==> r == m
  {
    if AcceptsEmail(reply) then m[DebugEmailKey := reply.text] else m
  }

  /** The user property store, `userProp`. */
  class UserProperties {
    var props: map<string, string>

    constructor (initial: map<string, string>)
      ensures props == initial
    {
      props := initial;
    }

    /** Both settings are present, as the menu expects after onOpen. */
    predicate Initialized()
      reads this
    {
      DebugKey in props && DebugEmailKey in props
    }

    /** setDefaults, with the active user's address as a parameter. */
    method SetDefaults(rev: Revision, activeUser: string)
      modifies this
      ensures props == WithDefaults(old(props), DefaultDebugEmail(rev, activeUser))
      ensures Initialized()
    {
      if DebugEmailKey !in props {
        props := props[DebugEmailKey := DefaultDebugEmail(rev, activeUser)];
      }
      if DebugKey !in props {
        props := props[DebugKey := DebugDefault];
      }
    }

    /** resetDebug without the menu reload. */
    method ResetDebug(rev: Revision, activeUser: string)
      modifies this
      ensures props == AfterReset(old(props), DefaultDebugEmail(rev, activeUser))
      ensures Initialized()
      ensures props[DebugKey] == DebugDefault
      ensures props[DebugEmailKey] == DefaultDebugEmail(rev, activeUser)
    {
      props := props - {DebugEmailKey};
      props := props - {DebugKey};
      SetDefaults(rev, activeUser);
    }

    /** turnOnDebug without the menu reload. */
    method TurnOnDebug()
      modifies this
      ensures props == old(props)[DebugKey := "true"]
      ensures old(Initialized()) ==> Initialized()
    {
      props := props[DebugKey := "true"];
    }

    /** turnOffDebug without the menu reload. */
    method TurnOffDebug()
      modifies this
      ensures props == old(props)[DebugKey := "false"]
      ensures old(Initialized()) ==> Initialized()
    {
      props := props[DebugKey := "false"];
    }

    /**
     * changeDebugEmail given the prompt's answer: the stored address, when
     * the change is made, and None (`undefined`) when it is cancelled or the
     * text is not an address.
     */
    method ChangeDebugEmail(reply: Reply) returns (result: Option<string>)
      modifies this
      ensures props == AfterEmailChange(old(props), reply)
      ensures result.Some? <==> AcceptsEmail(reply)
      ensures result.Some? ==> result.value == reply.text
      ensures old(Initialized()) ==> Initialized()
    {
      var email := reply.text;
      if reply.button == Ok {
        if ValidateEmail(email) {
          props := props[DebugEmailKey := email];
          return Some(props[DebugEmailKey]);
        }
        return None;
      }
      return None;
    }
  }
}
