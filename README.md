# zoom-mqtt-bridge: a Dafny model of the presence bridge

The bridge polls Zoom's contact-presence API once a second with an OAuth user access
token. When the reported `presence_status` changes, it publishes a retained "enter
meeting" or "leave meeting" message to one MQTT topic. This project models the
deterministic core of that program and proves its rules:

- the Basic-auth client credential (`build_client_bearer`), with a Base64 encoder that
  follows section 4 of RFC 4648 and a strict reference decoder; the two are proved
  inverse in both directions, so the credential is the one canonical encoding;
- the startup choice between the cached token and a newly minted one;
- the token record, whose constructor fills in the refresh deadline five minutes before
  expiry;
- one iteration of the polling loop, as `Loop.Step`. It refreshes the token when due,
  reads the poll body, and detects a change against the recorded status. It then picks
  the payload and publishes retained, and it records the new status only when the
  publish did not raise;
- lemmas over runs of iterations. The recorded status is always the last one whose
  publish went through. A steady status publishes nothing. A failing publish is attempted
  again on every iteration. The first observed status is always published.

Files: `Wrappers.dfy` (Option, Result), `Base64.dfy` (ASCII and Base64),
`Model.dfy` (`app/model.py`), `Bridge.dfy` (`app/__main__.py`).

The network, the broker, the files and the clock are inputs of the model. A token
exchange is given as its resulting token, or None where it raised. A poll is given as its
decoded body, or as a poll that raised. A publish is given as a flag that says whether it
raised. The time is given in whole seconds.

Behaviour worth noting:

- `resync_interval` and `qos` are declared but never read. A publish that raises is not
  retried or reconnected within the iteration. The loop never uses `KnownState`.
- The recorded status is the raw `presence_status` value. A change between two statuses
  other than `Do_Not_Disturb` therefore publishes the leave message again.
- A poll that raises does not skip the iteration. The loop reads the previous body again,
  so a change whose publish raised is attempted once more. When the first poll raises,
  `data` is unassigned and the process stops with a NameError (`Fatal.DataUnbound`).
- A body without `presence_status` stops the process with a KeyError (`Fatal.StatusMissing`).
  So does a refresh exchange that raises (`Fatal.RefreshRejected`).
- A JSON `null` status equals the initial recorded status (Python `None`), so it
  publishes nothing on the first iteration.

Time is an integer `now`, which stands for `floor(time.time())`. This loses nothing:
for an integer `expires_in`, `floor(t + expires_in - 300) == floor(t) + expires_in - 300`.
And for an integer deadline `d`, `t >= d` holds exactly when `floor(t) >= d`.

## Model

| member | source | states |
|---|---|---|
| `Base64.AsciiEncode` | app/__main__.py:19 | `str.encode("ascii")` succeeds exactly when every character is below 128; each byte then equals its character's code |
| `Base64.Encode` | app/__main__.py:19 | `b64encode` output has 4 characters per started group of 3 bytes |
| `Base64.EncodeUsesAlphabet` | app/__main__.py:19 | every output character is from the Base64 alphabet or is the pad `=` |
| `Base64.DecodeEncode` | app/__main__.py:19 | decoding the encoding gives back the input bytes, so the encoding loses nothing |
| `Base64.EncodeDecode` | app/__main__.py:19 | every text the decoder accepts is the encoding of what it decodes to, so each byte string has exactly one encoding (spare bits of a padded group are zero) |
| `Base64.EncodeInjective` | app/__main__.py:19 | two byte strings with the same encoding are equal |
| `Bridge.ClientBearer` | app/__main__.py:18-19 | `build_client_bearer`: a result exists iff `client_id:client_secret` is ASCII; it decodes to the ASCII bytes of that string and has the Base64 length for it |
| `Bridge.ClientBearerDecodes` | app/__main__.py:18-19 | the bearer decodes to exactly the codes of `client_id`, then `:`, then `client_secret`, and no other text decodes to those bytes |
| `Bridge.StartupToken` | app/__main__.py:68-78 | a cached token that loads is used and the cache is not rewritten; otherwise the minted token is used and written to the cache; a failed exchange stops startup |
| `Bridge.Payload` | app/__main__.py:101-106 | the payload is the enter message for `Do_Not_Disturb` and the leave message for every other status |
| `Bridge.Decide` | app/__main__.py:99-106 | a publish is attempted iff the observed status differs from the recorded one; it goes to `mqtt_publish_to`, retained, with the enter message for `Do_Not_Disturb` and the leave message for any other status |
| `Bridge.NextKnown` | app/__main__.py:100-110 | the recorded status becomes the observed one when the publish did not raise and stays as it was when it raised |
| `Bridge.KnownIsLastDelivered` | app/__main__.py:99-110 | after any run, the recorded status is that of the last iteration whose publish did not raise, or the starting one |
| `Bridge.FirstObservationPublishes` | app/__main__.py:80-106 | the recorded status starts as None, so the first observed string status is published |
| `Bridge.SteadyRunIsSilent` | app/__main__.py:99-107 | while the observed status equals the recorded one, nothing is published and the record stays the same |
| `Bridge.FailedPublishIsRetried` | app/__main__.py:99-110 | while the publish of a changed status keeps raising, the record stays put and every iteration attempts the same publish |
| `Bridge.LeaveIsRepublished` | app/__main__.py:99-107 | a change between two non-`Do_Not_Disturb` statuses publishes the leave message again |
| `Bridge.NextData` | app/__main__.py:87-95 | a successful poll replaces the body; a poll that raises keeps the previous one, so the body stays unassigned only while no poll has succeeded |
| `Bridge.ReadStatus` | app/__main__.py:97-99 | reading the status raises NameError exactly when `data` is unassigned and KeyError exactly when the body lacks `presence_status`; otherwise it gives that field |
| `Bridge.DataIsLastFetched` | app/__main__.py:87-95 | after any run of polls, the body read is that of the last poll that did not raise, or the starting one |
| `Bridge.UnboundWhileEveryPollRaised` | app/__main__.py:87-99 | from the start of the loop, the NameError stop happens exactly when every poll so far has raised |
| `Bridge.RefreshDueTiming` | app/__main__.py:82 | the refresh test `now >= refresh_at_ts`: for a token whose deadline was filled in, it holds exactly from 300 seconds before expiry, and once it holds it keeps holding |
| `Bridge.Loop.constructor` | app/__main__.py:80 | the loop starts with the startup token and no recorded status |
| `Bridge.Loop.Step` | app/__main__.py:81-112 | refresh iff `now >= refresh_at_ts`, with the held refresh token; a refresh that raises stops the process unchanged; otherwise the refreshed token replaces the held one before the poll, a raised poll keeps the previous body, a missing body or field stops the process, and the publish and the new record are those of `Decide` and `NextKnown` |
| `Model.NewConfig` | app/model.py:8-23 | required fields as given; defaults `user_code = None`, `mqtt_port = 1883`, `mqtt_timeout = 60`, `resync_interval = 0`, `qos = 1` |
| `Model.UserAccessToken.constructor` | app/model.py:26-37 | fields as given; a falsy `refresh_at_ts` (None or 0) becomes `now + expires_in - 300`, a truthy one is kept |
| `Model.KnownState.Value` | app/model.py:39-42 | UNKNOWN = 0, ON_CALL = 1, OFF_CALL = 2, each value for exactly one member |
| `Model.KnownStateOf` | app/model.py:39-42 | lookup by value succeeds exactly for 0, 1 and 2 and returns the member with that value |
| `Model.KnownStateValues` | app/model.py:39-42 | the three members have distinct values and lookup by value finds each |

## Left out

- The HTTP token exchanges and the presence GET (`app/__main__.py:21-58, 88-93`) are network I/O. Their results are inputs. The Authorization headers they send are not modelled.
- The credential cache read and write, the config file, and JSON/cattr structuring (`app/__main__.py:61-62, 69-78, 84-85`) are file I/O and library calls. At startup the cache write shows up only as `cacheWritten`. The write after a refresh is not modelled.
- The MQTT client (`app/__main__.py:65-66`) is an external library. A publish is modelled only as returning or raising. Its return code is ignored by the source and is not modelled either.
- Logging, `time.sleep(1)` and the endless `while True`: the model has one iteration (`Loop.Step`) and lemmas over runs of iterations.
- `presence_status` values other than a string or JSON `null` (numbers, booleans, objects), and a poll body that is not a JSON object, are not modelled.
- `Model.NewConfig` gives the defaults only. A `config.json` that sets an optional field corresponds to a datatype update of the result. `resync_interval` and `qos` are never read by the loop.
- `KnownState` is declared but never used by the loop; the model declares it and nothing uses it.
