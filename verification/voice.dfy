/** The pure parts of `voice_providers.py`: the provider registry, the
    availability test, the key guards in front of every network request, the
    ElevenLabs voice-id table, the Google language choice and the voice
    lists. The network exchange itself is an opaque outcome passed in. */
module Voice {
  import opened Options

  datatype Kind = OpenAI | ElevenLabs | Google | Azure

  /** The configuration entries the providers read; `None` stands for a
      missing entry or a `None` value. */
  datatype VoiceConfig = VoiceConfig(
    openAiKey: Option<string>,
    elevenLabsKey: Option<string>,
    googleKey: Option<string>,
    azureKey: Option<string>,
    azureRegion: Option<string>)

  /** Python truthiness of an optional string. */
  predicate Truthy(s: Option<string>) {
    s.Some? && s.value != ""
  }

  /** A constructed provider. `hasClient` is the OpenAI client slot, which is
      empty without a key or when building the client raised. */
  datatype Provider = Provider(kind: Kind, apiKey: Option<string>, hasClient: bool, region: string)

  const DefaultAzureRegion := "eastus"

  function KeyFor(kind: Kind, config: VoiceConfig): Option<string> {
    match kind
    case OpenAI => config.openAiKey
    case ElevenLabs => config.elevenLabsKey
    case Google => config.googleKey
    case Azure => config.azureKey
  }

  /** The registry of `get_voice_provider`. */
  function KindNamed(name: string): (k: Option<Kind>)
    ensures k == Some(OpenAI) <==> name == "openai"
    ensures k == Some(ElevenLabs) <==> name == "elevenlabs"
    ensures k == Some(Google) <==> name == "google"
    ensures k == Some(Azure) <==> name == "azure"
  {
    if name == "openai" then Some(OpenAI)
    else if name == "elevenlabs" then Some(ElevenLabs)
    else if name == "google" then Some(Google)
    else if name == "azure" then Some(Azure)
    else None
  }

  /** Constructing a provider; `clientBuilds` says whether building the
      OpenAI client succeeds when it is attempted. */
  function NewProvider(kind: Kind, config: VoiceConfig, clientBuilds: bool): (p: Provider)
    ensures p.kind == kind && p.apiKey == KeyFor(kind, config)
    ensures p.hasClient <==> kind == OpenAI && Truthy(p.apiKey) && clientBuilds
    ensures kind == Azure ==> p.region == config.azureRegion.GetOr(DefaultAzureRegion)
  {
    var key := KeyFor(kind, config);
    Provider(kind, key,
             kind == OpenAI && Truthy(key) && clientBuilds,
             if kind == Azure then config.azureRegion.GetOr(DefaultAzureRegion) else "")
  }

  /** `get_voice_provider(provider_name, config)`. */
  function GetVoiceProvider(name: string, config: VoiceConfig, clientBuilds: bool): Option<Provider> {
    match KindNamed(name)
    case None => None
    case Some(kind) => Some(NewProvider(kind, config, clientBuilds))
  }

  /** `is_available`, the same test for all four providers. */
  predicate IsAvailable(p: Provider) {
    Truthy(p.apiKey)
  }

  /** A provider exists exactly for the four registered names, it is of the
      kind the name says, and it is available exactly when that kind's key
      is configured and non-empty. */
  lemma GetVoiceProviderSpec(name: string, config: VoiceConfig, clientBuilds: bool)
    ensures GetVoiceProvider(name, config, clientBuilds).Some?
        <==> name in {"openai", "elevenlabs", "google", "azure"}
    ensures GetVoiceProvider(name, config, clientBuilds).Some? ==>
        var p := GetVoiceProvider(name, config, clientBuilds).value;
        && Some(p.kind) == KindNamed(name)
        && (IsAvailable(p) <==> Truthy(KeyFor(p.kind, config)))
  {
  }

  /** The Azure region falls back to `eastus` only when none is configured. */
  lemma AzureRegionDefault(config: VoiceConfig, clientBuilds: bool)
    ensures config.azureRegion.None? ==> NewProvider(Azure, config, clientBuilds).region == "eastus"
    ensures config.azureRegion.Some? ==>
        NewProvider(Azure, config, clientBuilds).region == config.azureRegion.value
  {
  }

  // ---------------------------------------------------------------------
  // ElevenLabs voice ids and the Google language code
  // ---------------------------------------------------------------------

  const RachelId := "21m00Tcm4TlvDq8ikWAM"

  /** The `voice_ids` table: voice name and ElevenLabs voice id, in the
      order the source lists them. */
  const VoiceIdTable: seq<(string, string)> := [
    ("rachel", RachelId),
    ("domi", "AZnzlk1XvdvUeBnXmlld"),
    ("bella", "EXAVITQu4vr4xnSDxMaL"),
    ("antoni", "ErXwobaYiN019PkySvjV"),
    ("josh", "TxGEqnHWrfWFTfGW9XjX"),
    ("adam", "pNInz6obpgDQGcFmaJgB")]

  /** A voice name the table knows. */
  predicate KnownVoice(voice: string) {
    exists i :: 0 <= i < |VoiceIdTable| && VoiceIdTable[i].0 == voice
  }

  /** Dictionary lookup in a table of pairs. */
  function Lookup(table: seq<(string, string)>, key: string): (r: Option<string>)
    ensures r.Some? ==> (key, r.value) in table
    ensures r.None? ==> forall i :: 0 <= i < |table| ==> table[i].0 != key
  {
    if |table| == 0 then None
    else if table[0].0 == key then Some(table[0].1)
    else Lookup(table[1..], key)
  }

  /** `voice_ids.get(voice, voice_ids['rachel'])`. */
  function VoiceId(voice: string): (id: string)
    ensures KnownVoice(voice) ==> (voice, id) in VoiceIdTable
    ensures !KnownVoice(voice) ==> id == RachelId
    ensures exists i :: 0 <= i < |VoiceIdTable| && VoiceIdTable[i].1 == id
  {
    assert VoiceIdTable[0].1 == RachelId;
    Lookup(VoiceIdTable, voice).GetOr(RachelId)
  }

  /** Neither a name nor an id occurs twice in the table. */
  lemma VoiceIdTableDistinct()
    ensures forall i, j :: 0 <= i < j < |VoiceIdTable| ==>
      VoiceIdTable[i].0 != VoiceIdTable[j].0 && VoiceIdTable[i].1 != VoiceIdTable[j].1
  {
  }

  /** Each known voice has its own id, so the lookup tells the known voices
      apart; every unknown voice shares rachel's id. */
  lemma VoiceIdsInjective(v: string, w: string)
    requires KnownVoice(v) && KnownVoice(w) && v != w
    ensures VoiceId(v) != VoiceId(w)
  {
    VoiceIdTableDistinct();
    var i :| 0 <= i < |VoiceIdTable| && VoiceIdTable[i] == (v, VoiceId(v));
    var j :| 0 <= j < |VoiceIdTable| && VoiceIdTable[j] == (w, VoiceId(w));
    assert i != j;
  }

  predicate StartsWith(s: string, prefix: string) {
    |prefix| <= |s| && s[..|prefix|] == prefix
  }

  /** The language code sent to Google. */
  function LanguageCode(voice: string): (code: string)
    ensures code == "zh-CN" || code == "en-US"
  {
    if StartsWith(voice, "zh-CN") then "zh-CN" else "en-US"
  }

  /** The language is Chinese exactly for the voices whose name starts with
      `zh-CN`; every other voice, including an empty name, gets `en-US`. */
  lemma LanguageCodeIff(voice: string)
    ensures LanguageCode(voice) == "zh-CN" <==> |voice| >= 5 && voice[..5] == "zh-CN"
    ensures LanguageCode(voice) == "en-US" <==> !(|voice| >= 5 && voice[..5] == "zh-CN")
  {
    assert "zh-CN" != "en-US" by { assert "zh-CN"[0] != "en-US"[0]; }
  }

  // ---------------------------------------------------------------------
  // generate_speech
  // ---------------------------------------------------------------------

  const ElevenLabsBase := "https://api.elevenlabs.io/v1"
  const GoogleBase := "https://texttospeech.googleapis.com/v1/text:synthesize"

  function AzureEndpoint(region: string): string {
    "https://" + region + ".tts.speech.microsoft.com/cognitiveservices/v1"
  }

  /** The request a provider sends: the endpoint, the credential it carries,
      the voice as the service names it and, for Google, the language. */
  datatype Call = Call(url: string, credential: string, voice: string, language: Option<string>, text: string)

  /** How the guarded block ended: it raised (network error, client error,
      bad response body, failed file write) or the service answered with a
      status code. The OpenAI client reports failures by raising. */
  datatype Outcome = Raised | Answered(status: int)

  datatype Attempt = Attempt(ok: bool, sent: Option<Call>)

  /** The request built once the guard has passed. */
  function BuildCall(p: Provider, text: string, voice: string): Call
    requires Truthy(p.apiKey)
  {
    var key := p.apiKey.value;
    match p.kind
    case OpenAI => Call("", key, voice, None, text)
    case ElevenLabs => Call(ElevenLabsBase + "/text-to-speech/" + VoiceId(voice), key, VoiceId(voice), None, text)
    case Google => Call(GoogleBase + "?key=" + key, key, voice, Some(LanguageCode(voice)), text)
    case Azure => Call(AzureEndpoint(p.region), key, voice, None, text)
  }

  /** `generate_speech(text, voice, ...)`: the OpenAI provider needs a
      client, the others a key; a service answering with status 200 is the
      only success of the HTTP providers, not raising is the OpenAI one. */
  function GenerateSpeech(p: Provider, text: string, voice: string, outcome: Outcome): (a: Attempt)
    ensures a.ok ==> a.sent.Some? && outcome.Answered?
  {
    var guarded := if p.kind == OpenAI then p.hasClient else Truthy(p.apiKey);
    if !guarded || !Truthy(p.apiKey) then Attempt(false, None)
    else
      var call := BuildCall(p, text, voice);
      match outcome
      case Raised => Attempt(false, Some(call))
      case Answered(status) => Attempt(p.kind == OpenAI || status == 200, Some(call))
  }

  /** Without a key, or for OpenAI without a client, nothing is sent and the
      call fails; otherwise the request goes out carrying the key, and the
      call succeeds exactly when the service answered (with 200 for the HTTP
      providers). */
  lemma GenerateSpeechGuard(p: Provider, text: string, voice: string, outcome: Outcome)
    requires p.kind == OpenAI ==> (p.hasClient ==> Truthy(p.apiKey))
    ensures var a := GenerateSpeech(p, text, voice, outcome);
      var ready := if p.kind == OpenAI then p.hasClient else Truthy(p.apiKey);
      && (!ready ==> !a.ok && a.sent.None?)
      && (ready ==> a.sent.Some? && a.sent.value.credential == p.apiKey.value && a.sent.value.text == text)
      && (ready && p.kind == OpenAI ==> (a.ok <==> outcome.Answered?))
      && (ready && p.kind != OpenAI ==> (a.ok <==> outcome == Answered(200)))
  {
  }

  /** Every constructed provider meets the guard's precondition: an OpenAI
      client only ever exists alongside a key. */
  lemma NewProviderClientNeedsKey(kind: Kind, config: VoiceConfig, clientBuilds: bool)
    ensures var p := NewProvider(kind, config, clientBuilds);
      p.hasClient ==> Truthy(p.apiKey)
  {
  }

  /** An OpenAI provider whose client failed to build is still reported
      available, yet every speech request fails without being sent. */
  lemma OpenAIAvailableButNoClient(config: VoiceConfig, text: string, voice: string, outcome: Outcome)
    requires Truthy(config.openAiKey)
    ensures var p := NewProvider(OpenAI, config, false);
      && IsAvailable(p)
      && GenerateSpeech(p, text, voice, outcome) == Attempt(false, None)
  {
  }

  /** ElevenLabs posts to the id of the chosen voice, and unknown voices
      speak with rachel's. */
  lemma ElevenLabsCallUsesVoiceId(p: Provider, text: string, voice: string, outcome: Outcome)
    requires p.kind == ElevenLabs && Truthy(p.apiKey)
    ensures var a := GenerateSpeech(p, text, voice, outcome);
      && a.sent.Some?
      && (KnownVoice(voice) ==> (voice, a.sent.value.voice) in VoiceIdTable)
      && (!KnownVoice(voice) ==> a.sent.value.voice == RachelId)
      && a.sent.value.url == ElevenLabsBase + "/text-to-speech/" + a.sent.value.voice
  {
  }

  // ---------------------------------------------------------------------
  // Voice lists
  // ---------------------------------------------------------------------

  datatype VoiceEntry = VoiceEntry(value: string, display: string)

  const OpenAIVoices: seq<VoiceEntry> := [
    VoiceEntry("alloy", "Alloy (Neutral)"),
    VoiceEntry("echo", "Echo (Male)"),
    VoiceEntry("fable", "Fable (British Male)"),
    VoiceEntry("onyx", "Onyx (Deep Male)"),
    VoiceEntry("nova", "Nova (Female)"),
    VoiceEntry("shimmer", "Shimmer (Soft Female)")]

  const ElevenLabsVoices: seq<VoiceEntry> := [
    VoiceEntry("rachel", "Rachel (American Female)"),
    VoiceEntry("domi", "Domi (American Female)"),
    VoiceEntry("bella", "Bella (American Female)"),
    VoiceEntry("antoni", "Antoni (American Male)"),
    VoiceEntry("josh", "Josh (American Male)"),
    VoiceEntry("adam", "Adam (American Male)")]

  const GoogleVoices: seq<VoiceEntry> := [
    VoiceEntry("en-US-Standard-A", "US English (Female A)"),
    VoiceEntry("en-US-Standard-B", "US English (Male B)"),
    VoiceEntry("en-US-Standard-C", "US English (Female C)"),
    VoiceEntry("en-US-Standard-D", "US English (Male D)"),
    VoiceEntry("en-US-Wavenet-A", "US English Wavenet (Female A)"),
    VoiceEntry("en-US-Wavenet-B", "US English Wavenet (Male B)")]

  const AzureVoices: seq<VoiceEntry> := [
    VoiceEntry("en-US-AriaNeural", "Aria (US Female)"),
    VoiceEntry("en-US-DavisNeural", "Davis (US Male)"),
    VoiceEntry("en-US-GuyNeural", "Guy (US Male)"),
    VoiceEntry("en-US-JaneNeural", "Jane (US Female)"),
    VoiceEntry("en-US-JasonNeural", "Jason (US Male)"),
    VoiceEntry("en-US-JennyNeural", "Jenny (US Female)")]

  /** `get_voice_list` of each provider. */
  function VoiceList(kind: Kind): seq<VoiceEntry> {
    match kind
    case OpenAI => OpenAIVoices
    case ElevenLabs => ElevenLabsVoices
    case Google => GoogleVoices
    case Azure => AzureVoices
  }

  /** No two entries of a list offer the same voice value. */
  predicate DistinctValues(list: seq<VoiceEntry>) {
    forall i, j :: 0 <= i < j < |list| ==> list[i].value != list[j].value
  }

  /** Each list offers six voices with distinct values. */
  lemma VoiceListsDistinct(kind: Kind)
    ensures |VoiceList(kind)| == 6
    ensures DistinctValues(VoiceList(kind))
  {
  }

  /** The ElevenLabs list offers exactly the voices of the id table, in
      the same order, so a voice picked from the list never falls back to
      rachel by accident. */
  lemma ElevenLabsListMatchesIds()
    ensures |VoiceList(ElevenLabs)| == |VoiceIdTable|
    ensures forall i :: 0 <= i < |VoiceIdTable| ==> VoiceList(ElevenLabs)[i].value == VoiceIdTable[i].0
  {
  }

  /** Every voice the ElevenLabs list offers is a name of the id table. */
  lemma ElevenLabsListKnown()
    ensures forall e :: e in VoiceList(ElevenLabs) ==> KnownVoice(e.value)
  {
    ElevenLabsListMatchesIds();
    forall e | e in ElevenLabsVoices ensures KnownVoice(e.value) {
      var i :| 0 <= i < |ElevenLabsVoices| && ElevenLabsVoices[i] == e;
      assert VoiceIdTable[i].0 == e.value;
    }
  }

  /** The only Google voices listed are American English ones, so the
      language chosen for any of them is `en-US`. */
  lemma GoogleListIsEnglish()
    ensures forall e :: e in VoiceList(Google) ==> LanguageCode(e.value) == "en-US"
  {
    forall e | e in GoogleVoices ensures LanguageCode(e.value) == "en-US" {
      assert e.value[0] == 'e';
      NotChinese(e.value);
    }
  }

  /** A voice whose name does not start with `z` is sent as `en-US`. */
  lemma NotChinese(voice: string)
    requires |voice| > 0 && voice[0] != 'z'
    ensures LanguageCode(voice) == "en-US"
  {
    if |voice| >= 5 {
      assert voice[..5][0] == voice[0];
    }
  }
}
