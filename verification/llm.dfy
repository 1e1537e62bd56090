/**
 * The local LLM connectivity check (app/backend/routers/llm.py).
 *
 * The models endpoint is built from the configured base URL, and the
 * answer of the probe is shaped into a response. The HTTP request itself
 * is an oracle value handed in by the caller.
 */
module Llm {
  import opened Wrappers
  import opened Text

  const Slash: set<char> := {'/'}

  /** build_models_url: trailing slashes dropped, then `/models` after a `/v1` base or `/v1/models` after any other. */
  function BuildModelsUrl(baseUrl: string): (r: string)
  {
    var cleaned := StripEnd(baseUrl, Slash);
    if EndsWith(cleaned, "/v1") then cleaned + "/models" else cleaned + "/v1/models"
  }

  /** The built URL always ends in `/v1/models` and starts with the base without its trailing slashes. */
  lemma BuildModelsUrlShape(baseUrl: string)
    ensures EndsWith(BuildModelsUrl(baseUrl), "/v1/models")
    ensures StripEnd(baseUrl, Slash) <= BuildModelsUrl(baseUrl)
  {
    var cleaned := StripEnd(baseUrl, Slash);
    var r := BuildModelsUrl(baseUrl);
    if EndsWith(cleaned, "/v1") {
      var stem := cleaned[..|cleaned| - 3];
      assert cleaned == stem + "/v1";
      assert r == stem + "/v1/models";
      EndsWithAppended(stem, "/v1/models");
    } else {
      assert r == cleaned + "/v1/models";
      EndsWithAppended(cleaned, "/v1/models");
    }
  }

  lemma EndsWithAppended(a: string, b: string)
    ensures EndsWith(a + b, b) && a <= a + b
  {
    assert (a + b)[|a|..] == b;
  }

  /** Trailing slashes on the base make no difference. */
  lemma BuildModelsUrlTrailingSlash(baseUrl: string)
    ensures BuildModelsUrl(baseUrl + "/") == BuildModelsUrl(baseUrl)
  {
    assert StripEnd(baseUrl + "/", Slash) == StripEnd(baseUrl, Slash) by {
      assert (baseUrl + "/")[..|baseUrl|] == baseUrl;
    }
  }

  /** A base without a trailing slash and a `/v1` ending gets `/v1/models`, and so does the same base with `/v1` added. */
  lemma BuildModelsUrlVersioned(base: string)
    requires base == "" || base[|base| - 1] != '/'
    ensures BuildModelsUrl(base + "/v1") == base + "/v1/models"
    ensures !EndsWith(base, "/v1") ==> BuildModelsUrl(base) == base + "/v1/models"
  {
    var v := base + "/v1";
    assert StripEnd(v, Slash) == v;
    assert v[|v| - 3..] == "/v1";
    assert StripEnd(base, Slash) == base;
  }

  /** One entry of the `data` list of the models answer; each key may be absent. */
  datatype RawModel = RawModel(id: Option<string>, ownedBy: Option<string>)

  /** A model of the response, with `unknown` standing for an absent key. */
  datatype ModelInfo = ModelInfo(id: string, ownedBy: string)

  /**
   * What the GET on the models URL gave: an answer with its status code and,
   * when the JSON body is an object holding `data`, that list; or one of the
   * failures the handler catches.
   */
  datatype Probe =
    | Answer(status: nat, data: Option<seq<RawModel>>)
    | Timeout
    | ConnectFailure
    | OtherFailure(message: string)

  datatype CheckResponse = CheckResponse(connected: bool, url: string, models: seq<ModelInfo>, error: Option<string>)

  const TimeoutMessage: string := "接続タイムアウト（VPN接続を確認してください）"
  const ConnectMessage: string := "接続できません（VPN接続を確認してください）"

  function ToModelInfo(m: RawModel): ModelInfo
  {
    ModelInfo(m.id.GetOr("unknown"), m.ownedBy.GetOr("unknown"))
  }

  function ModelInfos(data: seq<RawModel>): (r: seq<ModelInfo>)
    ensures |r| == |data|
    ensures forall i :: 0 <= i < |data| ==> r[i] == ToModelInfo(data[i])
  {
    if |data| == 0 then [] else [ToModelInfo(data[0])] + ModelInfos(data[1..])
  }

  /**
   * check_local_server given the probe of BuildModelsUrl(baseUrl): connected
   * exactly on a 200 answer, with the listed models and their `unknown`
   * defaults; otherwise not connected, no models, and an error text.
   */
  function CheckLocalServer(baseUrl: string, probe: Probe): (r: CheckResponse)
    ensures r.url == baseUrl
    ensures r.connected <==> probe.Answer? && probe.status == 200
    ensures r.connected <==> r.error.None?
    ensures !r.connected ==> r.models == []
    ensures probe.Answer? && probe.status != 200 ==> r.error == Some("HTTP " + NatToString(probe.status))
    ensures r.connected && probe.data.Some? ==>
      |r.models| == |probe.data.value| &&
      forall i :: 0 <= i < |r.models| ==>
        (r.models[i].id == if probe.data.value[i].id.Some? then probe.data.value[i].id.value else "unknown") &&
        (r.models[i].ownedBy == if probe.data.value[i].ownedBy.Some? then probe.data.value[i].ownedBy.value else "unknown")
    ensures r.connected && probe.data.None? ==> r.models == []
  {
    match probe
    case Answer(status, data) =>
      if status != 200 then CheckResponse(false, baseUrl, [], Some("HTTP " + NatToString(status)))
      else CheckResponse(true, baseUrl, if data.Some? then ModelInfos(data.value) else [], None)
    case Timeout => CheckResponse(false, baseUrl, [], Some(TimeoutMessage))
    case ConnectFailure => CheckResponse(false, baseUrl, [], Some(ConnectMessage))
    case OtherFailure(message) => CheckResponse(false, baseUrl, [], Some(message))
  }
}
