/** The configuration constants at the top of convert.py. */
module Config {

  /** File names skipped when collecting source files for the raw and dnsmasq lists. */
  const ExcludeServices: set<string> :=
    {"telegram.lst", "cloudflare.lst", "google_ai.lst", "google_play.lst",
     "hetzner.lst", "ovh.lst", "amazon.lst"}

  /** Domains removed from every dnsmasq list (the default `remove` argument). */
  const RemoveDomains: set<string> :=
    {"google.com", "googletagmanager.com", "github.com", "githubusercontent.com",
     "githubcopilot.com", "microsoft.com", "cloudflare-dns.com", "parsec.app"}

  const RemoveDomainsMikrotik: set<string> := RemoveDomains + {"showip.net"}

  const RemoveDomainsKvas: set<string> := RemoveDomains + {"t.co", "ua"}

  /** Glob patterns of video services kept out of the `russia_inside` rule set. */
  const RemoveRussiaInsideSrs: seq<string> :=
    ["*youtube*", "*tiktok*", "*ytimg*", "googlevideo.com", "yt3.ggpht.com",
     "yt4.ggpht.com", "jnn-pa.googleapis.com", "yt-video-upload.l.google.com"]

  /** Keywords that exclude a `.lst` file from the per-category rule sets. */
  const CategoryExcludeKeywords: set<string> :=
    {"meta", "twitter", "discord", "telegram", "hetzner", "ovh", "amazon"}
}
