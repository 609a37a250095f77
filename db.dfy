/** The `languages` and `study_sessions` tables of backend/database/db.js and the
    rules the schema makes the storage engine enforce: primary keys issued by
    AUTOINCREMENT, the UNIQUE language name, and the foreign key from a session to
    its language with ON DELETE CASCADE. */
module Schema {
  import opened Common
  import opened Seqs

  /** A row of `languages`. `createdAt` stands for the `CURRENT_TIMESTAMP`
      default: an ordering key that the caller supplies with each insert. */
  datatype Language = Language(id: nat, name: string, createdAt: nat)

  /** A row of `study_sessions`. Only `notes` may be NULL. `date` is the stored
      DATE text (`YYYY-MM-DD`). */
  datatype Session = Session(
    id: nat,
    languageId: int,
    category: string,
    durationMinutes: int,
    date: string,
    notes: Option<string>,
    createdAt: nat)

  function LanguageKey(l: Language): nat { l.id }
  function NameKey(l: Language): string { l.name }
  function SessionKey(s: Session): nat { s.id }

  predicate HasLanguage(languages: seq<Language>, id: int) {
    exists l :: l in languages && l.id == id
  }

  predicate NameTaken(languages: seq<Language>, name: string) {
    exists l :: l in languages && l.name == name
  }

  predicate HasSession(sessions: seq<Session>, id: int) {
    exists s :: s in sessions && s.id == id
  }

  /** `WHERE id <> ?` on `languages`. */
  function LanguageOtherThan(id: int): Language -> bool {
    (l: Language) => l.id != id
  }

  /** `WHERE id <> ?` on `study_sessions`. */
  function SessionOtherThan(id: int): Session -> bool {
    (s: Session) => s.id != id
  }

  /** The sessions the cascade keeps when language `id` goes. */
  function SessionNotOf(languageId: int): Session -> bool {
    (s: Session) => s.languageId != languageId
  }

  /** The foreign key `study_sessions.language_id -> languages.id`. */
  ghost predicate ReferencesResolve(languages: seq<Language>, sessions: seq<Session>) {
    forall s :: s in sessions ==> HasLanguage(languages, s.languageId)
  }

  /** Everything the database holds, for stating that a request left it alone. */
  datatype Snapshot = Snapshot(
    languages: seq<Language>,
    sessions: seq<Session>,
    lastLanguageId: nat,
    lastSessionId: nat,
    issuedLanguageIds: set<nat>,
    issuedSessionIds: set<nat>)

  class Database {
    var languages: seq<Language>
    var sessions: seq<Session>
    /** The `sqlite_sequence` counters behind AUTOINCREMENT: the largest id
        either table has ever issued. */
    var lastLanguageId: nat
    var lastSessionId: nat
    /** Every id either table has ever issued, deleted rows included. */
    ghost var issuedLanguageIds: set<nat>
    ghost var issuedSessionIds: set<nat>

    ghost predicate Valid()
      reads this
    {
      && KeysDistinct(languages, LanguageKey)
      && KeysDistinct(languages, NameKey)
      && KeysDistinct(sessions, SessionKey)
      && (forall l :: l in languages ==> l.id in issuedLanguageIds)
      && (forall s :: s in sessions ==> s.id in issuedSessionIds)
      && (forall id :: id in issuedLanguageIds ==> 1 <= id <= lastLanguageId)
      && (forall id :: id in issuedSessionIds ==> 1 <= id <= lastSessionId)
      && ReferencesResolve(languages, sessions)
    }

    ghost function State(): Snapshot
      reads this
    {
      Snapshot(languages, sessions, lastLanguageId, lastSessionId, issuedLanguageIds, issuedSessionIds)
    }

    constructor ()
      ensures Valid()
      ensures languages == [] && sessions == []
      ensures issuedLanguageIds == {} && issuedSessionIds == {}
    {
      languages, sessions := [], [];
      lastLanguageId, lastSessionId := 0, 0;
      issuedLanguageIds, issuedSessionIds := {}, {};
    }

    /** `INSERT INTO languages (name) VALUES (?)`: the UNIQUE constraint refuses a
        name already present; otherwise the row gets the next AUTOINCREMENT id. */
    method InsertLanguage(name: string, now: nat) returns (result: Outcome<nat>)
      requires Valid()
      modifies this
      ensures Valid()
      ensures sessions == old(sessions) && lastSessionId == old(lastSessionId)
      ensures issuedSessionIds == old(issuedSessionIds)
      ensures NameTaken(old(languages), name) ==>
        && result == Failed(ConstraintViolation)
        && languages == old(languages) && lastLanguageId == old(lastLanguageId)
        && issuedLanguageIds == old(issuedLanguageIds)
      ensures !NameTaken(old(languages), name) ==>
        && result == Done(old(lastLanguageId) + 1)
        && result.value !in old(issuedLanguageIds)
        && languages == old(languages) + [Language(result.value, name, now)]
        && lastLanguageId == result.value
        && issuedLanguageIds == old(issuedLanguageIds) + {result.value}
    {
      if NameTaken(languages, name) {
        return Failed(ConstraintViolation);
      }
      var id := lastLanguageId + 1;
      var row := Language(id, name, now);
      forall i | 0 <= i < |languages| ensures languages[i].id != id && languages[i].name != name {
        assert languages[i] in languages;
      }
      languages := languages + [row];
      lastLanguageId := id;
      issuedLanguageIds := issuedLanguageIds + {id};
      result := Done(id);
      forall s | s in sessions ensures HasLanguage(languages, s.languageId) {
        var l :| l in old(languages) && l.id == s.languageId;
        assert l in languages;
      }
    }

    /** `DELETE FROM languages WHERE id = ?`; ON DELETE CASCADE removes the
        sessions that reference it. `changes` counts only the language row. */
    method DeleteLanguage(id: int) returns (changes: nat)
      requires Valid()
      modifies this
      ensures Valid()
      ensures changes == if HasLanguage(old(languages), id) then 1 else 0
      ensures languages == Filter(old(languages), LanguageOtherThan(id))
      ensures sessions == Filter(old(sessions), SessionNotOf(id))
      ensures lastLanguageId == old(lastLanguageId) && lastSessionId == old(lastSessionId)
      ensures issuedLanguageIds == old(issuedLanguageIds)
      ensures issuedSessionIds == old(issuedSessionIds)
    {
      changes := if HasLanguage(languages, id) then 1 else 0;
      FilterKeepsKeysDistinct(languages, LanguageOtherThan(id), LanguageKey);
      FilterKeepsKeysDistinct(languages, LanguageOtherThan(id), NameKey);
      FilterKeepsKeysDistinct(sessions, SessionNotOf(id), SessionKey);
      ghost var before := languages;
      languages := Filter(languages, LanguageOtherThan(id));
      sessions := Filter(sessions, SessionNotOf(id));
      forall s | s in sessions ensures HasLanguage(languages, s.languageId) {
        assert SessionNotOf(id)(s);
        var l :| l in before && l.id == s.languageId;
        assert LanguageOtherThan(id)(l);
        assert l in languages;
      }
    }

    /** `INSERT INTO study_sessions ...`: the foreign key refuses a `language_id`
        naming no language; otherwise the row gets the next AUTOINCREMENT id. */
    method InsertSession(languageId: int, category: string, durationMinutes: int,
                         date: string, notes: Option<string>, now: nat)
      returns (result: Outcome<nat>)
      requires Valid()
      modifies this
      ensures Valid()
      ensures languages == old(languages) && lastLanguageId == old(lastLanguageId)
      ensures issuedLanguageIds == old(issuedLanguageIds)
      ensures !HasLanguage(old(languages), languageId) ==>
        && result == Failed(ConstraintViolation)
        && sessions == old(sessions) && lastSessionId == old(lastSessionId)
        && issuedSessionIds == old(issuedSessionIds)
      ensures HasLanguage(old(languages), languageId) ==>
        && result == Done(old(lastSessionId) + 1)
        && result.value !in old(issuedSessionIds)
        && sessions == old(sessions) +
             [Session(result.value, languageId, category, durationMinutes, date, notes, now)]
        && lastSessionId == result.value
        && issuedSessionIds == old(issuedSessionIds) + {result.value}
    {
      if !HasLanguage(languages, languageId) {
        return Failed(ConstraintViolation);
      }
      var id := lastSessionId + 1;
      forall i | 0 <= i < |sessions| ensures sessions[i].id != id {
        assert sessions[i] in sessions;
      }
      sessions := sessions + [Session(id, languageId, category, durationMinutes, date, notes, now)];
      lastSessionId := id;
      issuedSessionIds := issuedSessionIds + {id};
      result := Done(id);
    }

    /** `DELETE FROM study_sessions WHERE id = ?`. */
    method DeleteSession(id: int) returns (changes: nat)
      requires Valid()
      modifies this
      ensures Valid()
      ensures changes == if HasSession(old(sessions), id) then 1 else 0
      ensures sessions == Filter(old(sessions), SessionOtherThan(id))
      ensures languages == old(languages)
      ensures lastLanguageId == old(lastLanguageId) && lastSessionId == old(lastSessionId)
      ensures issuedLanguageIds == old(issuedLanguageIds)
      ensures issuedSessionIds == old(issuedSessionIds)
    {
      changes := if HasSession(sessions, id) then 1 else 0;
      FilterKeepsKeysDistinct(sessions, SessionOtherThan(id), SessionKey);
      sessions := Filter(sessions, SessionOtherThan(id));
    }
  }
}
