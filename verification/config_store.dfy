/** The backend's in-memory session configuration store: a dictionary from
    session id to the last payload saved for it. */
module ConfigStore {
  import opened Wrappers
  import opened Color

  /** The request body: colour triples and opacities keyed by part id. */
  datatype ConfigPayload = ConfigPayload(colorMap: map<int, Rgb>, opacityMap: map<int, int>)

  type Store = map<string, ConfigPayload>

  datatype HttpError = HttpError(statusCode: int, detail: string)

  const Saved := "Configuration saved successfully"
  const NotFound := HttpError(404, "No config found for this session_id")

  /** `POST /config/{session_id}`: stores the payload under the id, replacing
      whatever was there, and answers with a fixed message. */
  function SaveConfig(store: Store, sessionId: string, payload: ConfigPayload): (r: (Store, string))
    ensures r.0.Keys == store.Keys + {sessionId}
    ensures r.0[sessionId] == payload
    ensures forall id :: id in store && id != sessionId ==> r.0[id] == store[id]
    ensures r.1 == Saved
  {
    (store[sessionId := payload], Saved)
  }

  /** `GET /config/{session_id}`: the stored payload, or a 404 error. */
  function LoadConfig(store: Store, sessionId: string): (r: Result<ConfigPayload, HttpError>)
    ensures sessionId in store <==> r.Success?
    ensures r.Success? ==> r.value == store[sessionId]
    ensures r.Failure? ==> r.error == NotFound
  {
    if sessionId in store then Success(store[sessionId]) else Failure(NotFound)
  }

  /** Loading what was just saved gives it back. */
  lemma SaveThenLoad(store: Store, sessionId: string, payload: ConfigPayload)
    ensures LoadConfig(SaveConfig(store, sessionId, payload).0, sessionId) == Success(payload)
  {
  }

  /** A second save for the same id replaces the first. */
  lemma SaveOverwrites(store: Store, sessionId: string, p1: ConfigPayload, p2: ConfigPayload)
    ensures SaveConfig(SaveConfig(store, sessionId, p1).0, sessionId, p2).0
         == SaveConfig(store, sessionId, p2).0
  {
  }

  /** Saving under one id does not change what loads under another. */
  lemma SaveLeavesOthers(store: Store, sessionId: string, payload: ConfigPayload, other: string)
    requires other != sessionId
    ensures LoadConfig(SaveConfig(store, sessionId, payload).0, other) == LoadConfig(store, other)
  {
  }

  /** Nothing loads from a store nobody saved to. */
  lemma EmptyStoreNotFound(sessionId: string)
    ensures LoadConfig(map[], sessionId) == Failure(NotFound)
  {
  }
}
