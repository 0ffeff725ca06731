/** The backend host that every request of the ManhwaWeb source is sent to. */
module Endpoints {
  const API_URL := "https://manhwawebbackend-production.up.railway.app"
}
